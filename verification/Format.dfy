/** Integer conversions of printf (src/lib/stdio.c) and their inverse `atoi`
    (src/lib/stdlib.c). */
module Format {
  import opened Common
  import opened Nonlinear
  import A = Arithmetic

  datatype Flags = Flags(minus: bool, plus: bool, space: bool, pound: bool, zero: bool, group: bool)

  /** `struct printf_conversion`; a negative precision means none was given. */
  datatype Conversion = Conversion(flags: Flags, width: nat, precision: int)

  /** `struct integer_base`; `x` is the letter of a hexadecimal prefix. */
  datatype Base = Base(base: nat, digits: string, x: string, group: nat)

  const BASE_D: Base := Base(10, "0123456789", "", 3)
  const BASE_O: Base := Base(8, "01234567", "", 3)
  const BASE_X: Base := Base(16, "0123456789abcdef", "x", 4)
  const BASE_UPPER_X: Base := Base(16, "0123456789ABCDEF", "X", 4)

  function DigitValue(c: char): int {
    if '0' <= c <= '9' then c as int - '0' as int
    else if 'a' <= c <= 'z' then c as int - 'a' as int + 10
    else if 'A' <= c <= 'Z' then c as int - 'A' as int + 10
    else -1
  }

  /** What `format_integer` relies on in a base. */
  predicate ValidBase(b: Base) {
    && (b.base == 8 || b.base == 10 || b.base == 16) && b.base == |b.digits| && b.group >= 1 && |b.x| <= 1
    && forall d | 0 <= d < b.base :: DigitValue(b.digits[d]) == d
  }

  lemma BasesValid()
    ensures ValidBase(BASE_D) && ValidBase(BASE_O) && ValidBase(BASE_X) && ValidBase(BASE_UPPER_X)
    ensures BASE_D.base == 10 && BASE_O.base == 8 && BASE_X.base == BASE_UPPER_X.base == 16
    ensures BASE_D.group == BASE_O.group == 3 && BASE_X.group == BASE_UPPER_X.group == 4
    ensures BASE_D.x == BASE_O.x == "" && BASE_X.x == "x" && BASE_UPPER_X.x == "X"
  {}

  // ---------------------------------------------------------------- what is printed

  /** The digits of `v`, least significant first, with a comma before every `group`-th digit
      after the first if asked for; `cnt` digits have been produced already. */
  function Raw(v: nat, b: Base, grouped: bool, cnt: nat): string
    requires ValidBase(b)
  {
    if v == 0 then "" else Piece(v, b, grouped, cnt) + Raw(Quo(v, b.base), b, grouped, cnt + 1)
  }

  /** `v / base`, by cases on the bases there are. */
  function Quo(v: nat, base: nat): (q: nat)
    requires base == 8 || base == 10 || base == 16
    ensures q <= v / 8
  {
    if base == 8 then v / 8 else if base == 10 then v / 10 else v / 16
  }

  /** The last digit of `v`, after the comma it may need. */
  function Piece(v: nat, b: Base, grouped: bool, cnt: nat): string
    requires ValidBase(b)
  {
    (if grouped && cnt > 0 && cnt % b.group == 0 then "," else "") + [b.digits[v % b.base]]
  }

  function Repeat(c: char, n: nat): (s: string)
    ensures |s| == n && forall i | 0 <= i < n :: s[i] == c
  {
    seq(n, _ => c)
  }

  function Reverse(s: string): (r: string)
    ensures |r| == |s|
    ensures forall i | 0 <= i < |s| :: r[i] == s[|s| - 1 - i]
  {
    if s == "" then "" else Reverse(s[1..]) + [s[0]]
  }

  /** The buffer once the digits in it meet the precision, within 63 characters, and `%#o` has
      its leading zero. */
  function Completed(raw: string, octal: bool, c: Conversion): string {
    var padded := raw + Repeat('0', Max(0, Min(if c.precision < 0 then 1 else c.precision, 63) - |raw|));
    if c.flags.pound && octal && (padded == "" || padded[|padded| - 1] != '0') then padded + "0" else padded
  }

  function Buffer(v: nat, b: Base, c: Conversion): string
    requires ValidBase(b)
  {
    Completed(Raw(v, b, c.flags.group, 0), b.base == 8, c)
  }

  function Sign(signed: bool, negative: bool, f: Flags): string {
    if !signed then ""
    else if f.plus then (if negative then "-" else "+")
    else if f.space then (if negative then "-" else " ")
    else if negative then "-" else ""
  }

  function Prefix(v: nat, b: Base, f: Flags): string {
    if f.pound && v != 0 && b.x != "" then "0" + b.x else ""
  }

  /** Sign, prefix and digits: the conversion without padding. */
  function Body(v: nat, signed: bool, negative: bool, b: Base, c: Conversion): string
    requires ValidBase(b)
  {
    Sign(signed, negative, c.flags) + Prefix(v, b, c.flags) + Reverse(Buffer(v, b, c))
  }

  /** A conversion padded out to its field width. */
  function Field(c: Conversion, sign: string, x: string, digits: string): string {
    var pad := Max(0, c.width - |digits| - |x| - |sign|);
    (if !c.flags.minus && !c.flags.zero then Repeat(' ', pad) else "") + sign + x
    + (if c.flags.zero then Repeat('0', pad) else "") + digits
    + (if c.flags.minus then Repeat(' ', pad) else "")
  }

  function Text(v: nat, signed: bool, negative: bool, b: Base, c: Conversion): string
    requires ValidBase(b)
  {
    Field(c, Sign(signed, negative, c.flags), Prefix(v, b, c.flags), Reverse(Buffer(v, b, c)))
  }

  /** A conversion fills its field exactly, except that asking for zeros and left adjustment
      together pads on both sides. */
  lemma TextLength(v: nat, signed: bool, negative: bool, b: Base, c: Conversion)
    requires ValidBase(b)
    ensures var body, text := |Body(v, signed, negative, b, c)|, |Text(v, signed, negative, b, c)|;
            && text == Max(c.width, body)
                       + (if c.flags.minus && c.flags.zero then Max(0, c.width - body) else 0)
            && (text == Max(c.width, body) <==> !(c.flags.minus && c.flags.zero && body < c.width))
  {}

  // ---------------------------------------------------------------- parse_conversion

  /** How `parse_conversion` settles the flags, field width and precision it has read. */
  function Settle(f: Flags, width: int, precision: int): Conversion {
    var f1 := if f.minus then f.(zero := false) else f;
    var f2 := if f1.plus then f1.(space := false) else f1;
    var f3 := if width < 0 then f2.(minus := true) else f2;
    var f4 := if precision >= 0 then f3.(zero := false) else f3;
    Conversion(f4, if width < 0 then -width else width, if precision < 0 then -1 else precision)
  }

  /** A `-` or a negative width adjusts to the left; zeros are for neither `-` nor a precision; a
      space gives way to `+`; a negative precision is none. */
  lemma SettleIs(f: Flags, width: int, precision: int)
    ensures var c := Settle(f, width, precision);
            && c.flags == Flags(f.minus || width < 0, f.plus, f.space && !f.plus, f.pound,
                                f.zero && !f.minus && precision < 0, f.group)
            && c.width == A.Abs(width) && (precision >= 0 ==> c.precision == precision)
            && (precision < 0 <==> c.precision < 0)
  {}

  /** The field width promise, for every conversion specification: it fails exactly for a `0`
      flag without `-` or precision whose `*` width argument is negative and too wide. */
  lemma FieldWidth(v: nat, signed: bool, negative: bool, b: Base, f: Flags, width: int, precision: int)
    requires ValidBase(b)
    ensures var c := Settle(f, width, precision);
            var body := |Body(v, signed, negative, b, c)|;
            |Text(v, signed, negative, b, c)| == Max(c.width, body) <==>
              !(f.zero && !f.minus && precision < 0 && width < 0 && body < -width)
  {
    TextLength(v, signed, negative, b, Settle(f, width, precision));
  }

  /** `printf ("%0*d", -2, 5)` prints three characters into a field of two. */
  lemma FieldWidthFails()
    ensures var c := Settle(Flags(false, false, false, false, true, false), -2, -1);
            ValidBase(BASE_D) && Text(5, true, false, BASE_D, c) == "05 "
  {
    BasesValid();
    var c := Settle(Flags(false, false, false, false, true, false), -2, -1);
    assert Raw(5, BASE_D, false, 0) == "5" + Raw(0, BASE_D, false, 1);
    assert Buffer(5, BASE_D, c) == "5";
    assert Reverse("5") == Reverse("") + "5";
    assert Body(5, true, false, BASE_D, c) == "5";
    assert Repeat('0', 1) == "0" && Repeat(' ', 1) == " ";
  }

  // ---------------------------------------------------------------- format_integer

  /** Whether `n` digits are enough for `v` in every base. */
  ghost predicate InRoom(v: nat, n: nat) {
    v == 0 || (n > 0 && InRoom(v / 8, n - 1))
  }

  lemma {:induction false} RoomGrows(v: nat, w: nat, n: nat)
    requires v <= w && InRoom(w, n)
    ensures InRoom(v, n)
  {
    if v > 0 { RoomGrows(v / 8, w / 8, n - 1); }
  }

  lemma {:induction false} RoomFor(v: nat, k: nat, n: nat)
    requires v < Pow2(k) && k <= 3 * n
    ensures InRoom(v, n)
  {
    if v > 0 && k >= 3 {
      assert Pow2(k - 1) == 2 * Pow2(k - 2) && Pow2(k - 2) == 2 * Pow2(k - 3);
      RoomFor(v / 8, k - 3, n - 1);
    } else if v > 0 {
      assert k > 0;
    }
  }

  lemma RoomForAll(v: nat)
    requires v < A.B64
    ensures InRoom(v, 22)
  {
    Pow32();
    PowSum(32, 32);
    RoomFor(v, 64, 22);
  }

  /** Room for `n` digits of any base leaves room for `n - 1` after one of them is taken. */
  lemma DigitTaken(v: nat, n: nat, b: Base)
    requires ValidBase(b) && v > 0 && InRoom(v, n)
    ensures n > 0 && InRoom(Quo(v, b.base), n - 1) && Quo(v, b.base) < v
  {
    RoomGrows(Quo(v, b.base), v / 8, n - 1);
  }

  /** The body of the digit loop. */
  method PutDigit(v: nat, b: Base, grouped: bool, cnt: nat, buf: array<char>, at: nat,
                  ghost all: string, ghost room: nat)
    returns (cp: nat, rest: nat)
    requires ValidBase(b) && at + 2 <= buf.Length && 0 < v && InRoom(v, room)
    requires Remains(all, buf[..at], v, b, grouped, cnt)
    modifies buf
    ensures at < cp <= at + 2 && rest < v && room > 0 && InRoom(rest, room - 1)
    ensures Remains(all, buf[..cp], rest, b, grouped, cnt + 1)
  {
    DigitTaken(v, room, b);
    RawStep(all, buf[..at], v, b, grouped, cnt);
    rest := Quo(v, b.base);
    cp := at;
    if grouped && cnt > 0 && cnt % b.group == 0 {
      buf[cp] := ',';
      cp := cp + 1;
    }
    buf[cp] := b.digits[v % b.base];
    cp := cp + 1;
    assert buf[..cp] == old(buf[..at]) + Piece(v, b, grouped, cnt);
  }

  /** The digit loop: fills the buffer from its start and never comes near its end. */
  method Digits(value: nat, b: Base, grouped: bool, buf: array<char>) returns (cp: nat)
    requires value < A.B64 && ValidBase(b) && buf.Length == 64
    modifies buf
    ensures cp <= 44 && buf[..cp] == Raw(value, b, grouped, 0)
  {
    var left: nat, cnt: nat := value, 0;
    ghost var room: nat := 22;
    RoomForAll(value);
    ghost var all := Raw(value, b, grouped, 0);
    cp := 0;
    while left > 0
      invariant InRoom(left, room) && cp + 2 * room <= 44
      invariant Remains(all, buf[..cp], left, b, grouped, cnt)
    {
      cp, left := PutDigit(left, b, grouped, cnt, buf, cp, all, room);
      cnt := cnt + 1;
      room := room - 1;
    }
  }

  /** What is in the buffer and what the value still has to give make up all the digits. */
  ghost predicate Remains(all: string, done: string, v: nat, b: Base, grouped: bool, cnt: nat)
    requires ValidBase(b)
  {
    all == done + Raw(v, b, grouped, cnt)
  }

  lemma RawStep(all: string, done: string, v: nat, b: Base, grouped: bool, cnt: nat)
    requires ValidBase(b) && v > 0 && Remains(all, done, v, b, grouped, cnt)
    ensures Remains(all, done + Piece(v, b, grouped, cnt), Quo(v, b.base), b, grouped, cnt + 1)
  {}

  /** `format_integer`: what it sends to the output is the text of the conversion. */
  method FormatInteger(value: nat, signed: bool, negative: bool, b: Base, c: Conversion)
    returns (out: string)
    requires value < A.B64 && ValidBase(b)
    ensures out == Text(value, signed, negative, b, c)
  {
    var sign := "";
    if signed {
      if c.flags.plus {
        sign := if negative then "-" else "+";
      } else if c.flags.space {
        sign := if negative then "-" else " ";
      } else if negative {
        sign := "-";
      }
    }
    var x := if c.flags.pound && value != 0 && b.x != "" then "0" + b.x else "";
    assert sign == Sign(signed, negative, c.flags) && x == Prefix(value, b, c.flags);
    var buf := FillBuffer(value, b, c);
    out := Emit(c, sign, x, buf);
  }

  /** The buffer up to its cursor once all digits are in it. */
  method FillBuffer(value: nat, b: Base, c: Conversion) returns (digits: string)
    requires value < A.B64 && ValidBase(b)
    ensures digits == Buffer(value, b, c)
  {
    var buf := new char[64];
    var cp := Digits(value, b, c.flags.group, buf);
    cp := Complete(buf, cp, b.base == 8, c);
    digits := buf[..cp];
  }

  method Complete(buf: array<char>, at: nat, octal: bool, c: Conversion) returns (cp: nat)
    requires buf.Length == 64 && at <= 63
    modifies buf
    ensures cp <= 64 && buf[..cp] == Completed(old(buf[..at]), octal, c)
  {
    cp := Zeros(buf, at, if c.precision < 0 then 1 else c.precision);
    if c.flags.pound && octal && (cp == 0 || buf[cp - 1] != '0') {
      buf[cp] := '0';
      cp := cp + 1;
    }
  }

  /** The output calls at the end of `format_integer`. */
  method Emit(c: Conversion, sign: string, x: string, buf: string) returns (out: string)
    ensures out == Field(c, sign, x, Reverse(buf))
  {
    var pad: nat := Max(0, c.width - |buf| - |x| - |sign|);
    out := "";
    if !c.flags.minus && !c.flags.zero {
      out := OutputDup(' ', pad, out);
    }
    out := out + sign + x;
    if c.flags.zero {
      out := OutputDup('0', pad, out);
    }
    out := OutputBackward(buf, out);
    if c.flags.minus {
      out := OutputDup(' ', pad, out);
    }
  }

  method OutputBackward(buf: string, before: string) returns (out: string)
    ensures out == before + Reverse(buf)
  {
    out := before;
    var cp := |buf|;
    while cp > 0
      invariant 0 <= cp <= |buf| && out == before + Reverse(buf)[..|buf| - cp]
    {
      cp := cp - 1;
      out := out + [buf[cp]];
    }
  }

  /** `output_dup` */
  method OutputDup(c: char, cnt: nat, before: string) returns (out: string)
    ensures out == before + Repeat(c, cnt)
  {
    out := before;
    var left := cnt;
    while left > 0
      invariant 0 <= left <= cnt && out == before + Repeat(c, cnt - left)
    {
      left := left - 1;
      out := out + [c];
    }
  }

  /** Zeros up to the precision, as far as there is room for one more. */
  method Zeros(buf: array<char>, start: nat, precision: nat) returns (cp: nat)
    requires buf.Length == 64 && start <= 63
    modifies buf
    ensures start <= cp <= 63
    ensures buf[..cp] == old(buf[..start]) + Repeat('0', Max(0, Min(precision, 63) - start))
  {
    cp := start;
    while cp < precision && cp < 63
      invariant start <= cp <= 63 && (cp > start ==> cp <= precision)
      invariant buf[..cp] == old(buf[..start]) + Repeat('0', cp - start)
    {
      buf[cp] := '0';
      cp := cp + 1;
    }
  }

  // ---------------------------------------------------------------- what the digits mean

  /** The number a digit string stands for, most significant digit first, commas ignored. */
  function Eval(s: string, base: nat): int {
    if s == "" then 0
    else
      var rest, last := s[..|s| - 1], s[|s| - 1];
      if last == ',' then Eval(rest, base) else base * Eval(rest, base) + DigitValue(last)
  }

  /** The digits printed are those of the value, whatever the grouping and precision. */
  lemma DigitsEvaluate(v: nat, b: Base, c: Conversion)
    requires ValidBase(b)
    ensures Eval(Reverse(Buffer(v, b, c)), b.base) == v
  {
    RawEvaluates(v, b, c.flags.group, 0);
    CompletedEvaluates(Raw(v, b, c.flags.group, 0), b.base == 8, c, b.base);
  }

  lemma CompletedEvaluates(raw: string, octal: bool, c: Conversion, base: nat)
    ensures Eval(Reverse(Completed(raw, octal, c)), base) == Eval(Reverse(raw), base)
  {
    var zeros := Max(0, Min(if c.precision < 0 then 1 else c.precision, 63) - |raw|);
    LeadingZeros(raw, zeros, base);
    LeadingZeros(raw + Repeat('0', zeros), 1, base);
    assert Repeat('0', 1) == "0";
  }

  lemma {:induction false} RawEvaluates(v: nat, b: Base, grouped: bool, cnt: nat)
    requires ValidBase(b)
    ensures Eval(Reverse(Raw(v, b, grouped, cnt)), b.base) == v
  {
    if v > 0 {
      var q, digit := Quo(v, b.base), b.digits[v % b.base];
      RawEvaluates(q, b, grouped, cnt + 1);
      LastDigit(v, b);
      PieceEvaluates(Piece(v, b, grouped, cnt), digit, Raw(q, b, grouped, cnt + 1), b.base);
      assert Raw(v, b, grouped, cnt) == Piece(v, b, grouped, cnt) + Raw(q, b, grouped, cnt + 1);
    }
  }

  lemma LastDigit(v: nat, b: Base)
    requires ValidBase(b)
    ensures var digit := b.digits[v % b.base];
            digit != ',' && b.base * Quo(v, b.base) + DigitValue(digit) == v
  {
    DivMod(v, b.base);
    assert DigitValue(b.digits[v % b.base]) == v % b.base;
  }

  lemma PieceEvaluates(piece: string, digit: char, rest: string, base: nat)
    requires (piece == [digit] || piece == "," + [digit]) && digit != ','
    ensures Eval(Reverse(piece + rest), base) == base * Eval(Reverse(rest), base) + DigitValue(digit)
  {
    EvalDigit(digit, rest, base);
    if piece != [digit] {
      assert piece + rest == "," + ([digit] + rest);
      EvalComma([digit] + rest, base);
    }
  }

  lemma EvalDigit(digit: char, rest: string, base: nat)
    requires digit != ','
    ensures Eval(Reverse([digit] + rest), base) == base * Eval(Reverse(rest), base) + DigitValue(digit)
  {
    assert ([digit] + rest)[1..] == rest;
    assert Reverse([digit] + rest) == Reverse(rest) + [digit];
  }

  lemma EvalComma(rest: string, base: nat)
    ensures Eval(Reverse("," + rest), base) == Eval(Reverse(rest), base)
  {
    assert ("," + rest)[1..] == rest;
    assert Reverse("," + rest) == Reverse(rest) + ",";
  }

  lemma {:induction false} LeadingZeros(s: string, k: nat, base: nat)
    ensures Eval(Reverse(s + Repeat('0', k)), base) == Eval(Reverse(s), base)
    decreases |s| + k
  {
    var whole := s + Repeat('0', k);
    if s != "" {
      assert whole[1..] == s[1..] + Repeat('0', k);
      assert Reverse(whole) == Reverse(whole[1..]) + [s[0]];
      LeadingZeros(s[1..], k, base);
    } else if k > 0 {
      assert whole[1..] == "" + Repeat('0', k - 1);
      assert Reverse(whole) == Reverse(whole[1..]) + "0";
      LeadingZeros("", k - 1, base);
    }
  }

  lemma {:induction false} FrontZeros(k: nat, s: string, base: nat)
    ensures Eval(Repeat('0', k) + s, base) == Eval(s, base)
    decreases |s| + k
  {
    var whole := Repeat('0', k) + s;
    if s != "" {
      assert whole[..|whole| - 1] == Repeat('0', k) + s[..|s| - 1];
      FrontZeros(k, s[..|s| - 1], base);
    } else if k > 0 {
      assert whole[..|whole| - 1] == Repeat('0', k - 1) + s;
      FrontZeros(k - 1, s, base);
    }
  }

  /** Without grouping, every character of the number is a digit of the base. */
  lemma {:induction false} OnlyDigits(v: nat, b: Base, cnt: nat)
    requires ValidBase(b)
    ensures forall i | 0 <= i < |Raw(v, b, false, cnt)| :: Raw(v, b, false, cnt)[i] in b.digits
  {
    if v > 0 { OnlyDigits(Quo(v, b.base), b, cnt + 1); }
  }

  // ---------------------------------------------------------------- how it is laid out

  /** The order of the parts: spaces that adjust to the right come before everything, zeros between
      the sign or `0x` and the number, spaces that adjust to the left last. */
  predicate LaidOut(text: string, c: Conversion, sign: string, x: string, number: string) {
    var pad := Max(0, c.width - |sign| - |x| - |number|);
    && (!c.flags.minus && !c.flags.zero ==> text == Repeat(' ', pad) + (sign + x + number))
    && (!c.flags.minus && c.flags.zero ==> text == sign + x + Repeat('0', pad) + number)
    && (c.flags.minus && !c.flags.zero ==> text == sign + x + number + Repeat(' ', pad))
  }

  /** Only signed conversions have a sign: `-` for negative numbers, and otherwise `+` if asked for,
      or else a space if asked for.  Only nonzero hexadecimal numbers have a prefix. */
  lemma Layout(v: nat, signed: bool, negative: bool, b: Base, c: Conversion)
    requires ValidBase(b)
    ensures var sign := if signed && negative then "-" else if signed && c.flags.plus then "+"
                        else if signed && c.flags.space then " " else "";
            var x := if c.flags.pound && v > 0 && |b.x| == 1 then ['0', b.x[0]] else "";
            LaidOut(Text(v, signed, negative, b, c), c, sign, x, Reverse(Buffer(v, b, c)))
  {
    assert b.x != "" ==> "0" + b.x == ['0', b.x[0]];
    FieldLaidOut(c, Sign(signed, negative, c.flags), Prefix(v, b, c.flags), Reverse(Buffer(v, b, c)));
  }

  lemma FieldLaidOut(c: Conversion, sign: string, x: string, number: string)
    ensures LaidOut(Field(c, sign, x, number), c, sign, x, number)
  {
    var pad := Max(0, c.width - |number| - |x| - |sign|);
    Concat(Repeat(' ', pad), sign, x, number);
  }

  lemma Concat(a: string, b: string, c: string, d: string)
    ensures a + b + c + "" + d + "" == a + (b + c + d)
  {}

  /** The buffer, which is printed backward, holds the digits and then as many zeros as the precision,
      at least one digit if none is given, or the leading zero of `%#o` demands. */
  lemma NumberShape(v: nat, b: Base, c: Conversion)
    requires ValidBase(b)
    ensures var raw := Raw(v, b, c.flags.group, 0);
            Buffer(v, b, c) == raw + Repeat('0', LeadingCount(|raw|, b.base == 8, c))
  {
    TopDigit(v, b, c.flags.group, 0);
    CompletedIs(Raw(v, b, c.flags.group, 0), b.base == 8, c);
  }

  function LeadingCount(n: nat, octal: bool, c: Conversion): nat {
    Max(Max(0, Min(if c.precision < 0 then 1 else c.precision, 63) - n), if c.flags.pound && octal then 1 else 0)
  }

  lemma CompletedIs(raw: string, octal: bool, c: Conversion)
    requires raw == "" || raw[|raw| - 1] != '0'
    ensures Completed(raw, octal, c) == raw + Repeat('0', LeadingCount(|raw|, octal, c))
  {
    var k := Max(0, Min(if c.precision < 0 then 1 else c.precision, 63) - |raw|);
    if k == 0 { NoPadding(raw); } else { LastZero(raw, k); }
  }

  lemma NoPadding(raw: string)
    ensures raw + Repeat('0', 0) == raw && raw + Repeat('0', 1) == raw + "0"
  {}

  lemma LastZero(raw: string, k: nat)
    requires k > 0
    ensures var s := raw + Repeat('0', k); s != "" && s[|s| - 1] == '0'
  {}

  /** There are no more digits than needed: the first one is not zero. */
  lemma {:induction false} TopDigit(v: nat, b: Base, grouped: bool, cnt: nat)
    requires ValidBase(b)
    ensures v == 0 <==> Raw(v, b, grouped, cnt) == ""
    ensures v > 0 ==> var raw := Raw(v, b, grouped, cnt); raw[|raw| - 1] != '0' && raw[|raw| - 1] != ','
  {
    if v > 0 {
      var q := Quo(v, b.base);
      TopDigit(q, b, grouped, cnt + 1);
      LastDigit(v, b);
      var piece, rest := Piece(v, b, grouped, cnt), Raw(q, b, grouped, cnt + 1);
      assert Raw(v, b, grouped, cnt) == piece + rest;
      if q == 0 {
        assert piece + rest == piece && DigitValue(piece[|piece| - 1]) == v;
      }
    }
  }

  /** Digits, least significant first, with a comma after the first `room` and then after every `g`
      of them, as long as more follow. */
  function Commas(digits: string, g: nat, room: nat): string
    requires g > 0 && room > 0
  {
    if |digits| <= room then digits else digits[..room] + "," + Commas(digits[room..], g, g)
  }

  /** Grouping puts a comma between every three digits, or four in hexadecimal, from the right. */
  lemma GroupedIs(v: nat, b: Base)
    requires ValidBase(b) && (b.group == 3 || b.group == 4)
    ensures Raw(v, b, true, 0) == Commas(Raw(v, b, false, 0), b.group, b.group)
  {
    GroupedFrom(v, b, 0);
  }

  /** The same once `cnt` digits have been produced, `k` of them in the last group. */
  predicate GroupedAt(v: nat, b: Base, cnt: nat, k: nat)
    requires ValidBase(b)
  {
    k < b.group && Raw(v, b, true, cnt) == Due(v, cnt, k) + Commas(Raw(v, b, false, cnt), b.group, b.group - k)
  }

  function Due(v: nat, cnt: nat, k: nat): string { if v > 0 && cnt > 0 && k == 0 then "," else "" }

  lemma {:induction false} GroupedFrom(v: nat, b: Base, cnt: nat)
    requires ValidBase(b) && (b.group == 3 || b.group == 4)
    ensures GroupedAt(v, b, cnt, cnt % b.group)
  {
    if v > 0 {
      GroupedFrom(Quo(v, b.base), b, cnt + 1);
      NextInGroup(cnt, b.group);
      RawParts(v, b, false, cnt);
      RawParts(v, b, true, cnt);
      GroupedStep(v, b, cnt, cnt % b.group, (cnt + 1) % b.group);
    }
  }

  lemma NextInGroup(cnt: nat, g: nat)
    requires g == 3 || g == 4
    ensures (cnt + 1) % g == if cnt % g == g - 1 then 0 else cnt % g + 1
  {
    if g == 3 { assert (cnt + 1) % 3 == if cnt % 3 == 2 then 0 else cnt % 3 + 1; }
    else { assert (cnt + 1) % 4 == if cnt % 4 == 3 then 0 else cnt % 4 + 1; }
  }

  lemma GroupedStep(v: nat, b: Base, cnt: nat, k: nat, k': nat)
    requires ValidBase(b) && v > 0 && k < b.group && k' == (if k == b.group - 1 then 0 else k + 1)
    requires GroupedAt(Quo(v, b.base), b, cnt + 1, k')
    requires var d, q := [b.digits[v % b.base]], Quo(v, b.base);
             && Raw(v, b, false, cnt) == d + Raw(q, b, false, cnt + 1)
             && Raw(v, b, true, cnt) == Due(v, cnt, k) + d + Raw(q, b, true, cnt + 1)
    ensures GroupedAt(v, b, cnt, k)
  {
    var q := Quo(v, b.base);
    TopDigit(q, b, false, cnt + 1);
    NextComma(Due(v, cnt, k), [b.digits[v % b.base]], Due(q, cnt + 1, k'), Raw(q, b, false, cnt + 1), b.group, k, k');
  }

  lemma NextComma(comma: string, d: string, next: string, rest: string, g: nat, k: nat, k': nat)
    requires |d| == 1 && k < g && k' == (if k == g - 1 then 0 else k + 1)
    requires next == if rest != "" && k' == 0 then "," else ""
    ensures comma + d + (next + Commas(rest, g, g - k')) == comma + Commas(d + rest, g, g - k)
  {
    var tail := Commas(rest, g, g - k');
    CommasStep(d, rest, g, g - k);
    Regroup(comma, d, next, tail);
    if k < g - 1 { assert d + next + tail == d + tail; }
    else if rest == "" { assert d + next + tail == d; }
  }

  lemma Regroup(a: string, b: string, c: string, d: string)
    ensures a + b + (c + d) == a + (b + c + d)
  {}

  lemma RawParts(v: nat, b: Base, grouped: bool, cnt: nat)
    requires ValidBase(b) && v > 0
    ensures var d, rest := [b.digits[v % b.base]], Raw(Quo(v, b.base), b, grouped, cnt + 1);
            && (!grouped ==> Raw(v, b, grouped, cnt) == d + rest)
            && (grouped ==> Raw(v, b, grouped, cnt) == Due(v, cnt, cnt % b.group) + d + rest)
  {
    if !grouped { assert "" + [b.digits[v % b.base]] == [b.digits[v % b.base]]; }
  }

  lemma CommasStep(d: string, rest: string, g: nat, room: nat)
    requires |d| == 1 && g > 0 && room > 0
    ensures Commas(d + rest, g, room) ==
              if room > 1 then d + Commas(rest, g, room - 1)
              else if rest == "" then d else d + "," + Commas(rest, g, g)
  {
    if room == 1 {
      assert (d + rest)[..1] == d && (d + rest)[1..] == rest;
    } else if |rest| > room - 1 {
      assert (d + rest)[..room] == d + rest[..room - 1] && (d + rest)[room..] == rest[room - 1..];
    }
  }
}
