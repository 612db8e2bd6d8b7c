/** `atoi` (src/lib/stdlib.c) as the inverse of the `%d` conversion. */
module Atoi {
  import opened Common
  import opened Format
  import opened Nonlinear
  import A = Arithmetic

  /** A C string is the sequence of its characters; the null that ends it is not part of it. */
  predicate IsSpace(c: char) {
    c == ' ' || c == '\t' || c == '\n' || c == '\r' || c == '\U{B}' || c == '\U{C}'
  }

  predicate IsDigit(c: char) { '0' <= c <= '9' }

  function SkipSpaces(s: string): string {
    if s != "" && IsSpace(s[0]) then SkipSpaces(s[1..]) else s
  }

  /** The digits that a string starts with. */
  function DigitRun(s: string): string {
    if s != "" && IsDigit(s[0]) then [s[0]] + DigitRun(s[1..]) else ""
  }

  /** The integer written at the start of `s`: white space, an optional sign, digits. */
  function Number(s: string): int {
    var t := SkipSpaces(s);
    if t != "" && t[0] == '+' then Eval(DigitRun(t[1..]), 10)
    else if t != "" && t[0] == '-' then -Eval(DigitRun(t[1..]), 10)
    else Eval(DigitRun(t), 10)
  }

  /** White space, an optional sign, digits, and anything that does not go on with a digit: the
      number is that of the digits, negated for a minus. */
  lemma NumberExact(spaces: string, sign: string, digits: string, rest: string)
    requires forall i | 0 <= i < |spaces| :: spaces[i] in {' ', '\t', '\n', '\r', '\U{B}', '\U{C}'}
    requires sign == "" || sign == "+" || sign == "-"
    requires forall i | 0 <= i < |digits| :: '0' <= digits[i] <= '9'
    requires rest == "" || !('0' <= rest[0] <= '9')
    requires sign == "" && digits == "" && rest != "" ==>
             rest[0] !in {'+', '-', ' ', '\t', '\n', '\r', '\U{B}', '\U{C}'}
    ensures Number(spaces + sign + digits + rest) == if sign == "-" then -Eval(digits, 10) else Eval(digits, 10)
  {
    var body := digits + rest;
    assert digits != "" ==> body[0] == digits[0];
    assert digits == "" ==> body == rest;
    NoSpaceFirst(sign, body);
    SpacesSkipped(spaces, sign + body);
    DigitRunStops(digits, rest);
    InOrder(spaces, sign, digits, rest);
    AfterSpaces(spaces + (sign + body), sign, body);
  }

  lemma InOrder(a: string, b: string, c: string, d: string)
    ensures a + b + c + d == a + (b + (c + d))
  {}

  lemma NoSpaceFirst(sign: string, body: string)
    requires (sign == "" || sign == "+" || sign == "-") && (sign == "" && body != "" ==> !IsSpace(body[0]))
    ensures sign + body == "" || !IsSpace((sign + body)[0])
  {
    if sign == "" { assert sign + body == body; }
  }

  lemma AfterSpaces(s: string, sign: string, body: string)
    requires SkipSpaces(s) == sign + body && (sign == "" || sign == "+" || sign == "-")
    requires sign == "" && body != "" ==> body[0] != '+' && body[0] != '-'
    ensures Number(s) == if sign == "-" then -Eval(DigitRun(body), 10) else Eval(DigitRun(body), 10)
  {
    var t := sign + body;
    if sign == "" { assert t == body; } else { assert t[0] == sign[0] && t[1..] == body; }
  }

  lemma {:induction false} SpacesSkipped(spaces: string, t: string)
    requires (forall i | 0 <= i < |spaces| :: spaces[i] in {' ', '\t', '\n', '\r', '\U{B}', '\U{C}'})
    requires t == "" || !IsSpace(t[0])
    ensures SkipSpaces(spaces + t) == t
  {
    if spaces == "" {
      assert spaces + t == t;
    } else {
      assert (spaces + t)[1..] == spaces[1..] + t;
      SpacesSkipped(spaces[1..], t);
    }
  }

  /** Every `int` operation keeps the low 32 bits, so the result is the number written, in two's
      complement; that number itself exactly when it is an `int`. */
  method Atoi(s: string) returns (r: int)
    ensures r == A.Signed32(Number(s))
    ensures r == Number(s) <==> -0x8000_0000 <= Number(s) < 0x8000_0000
  {
    var p := s;
    while p != "" && IsSpace(p[0])
      invariant SkipSpaces(p) == SkipSpaces(s)
      decreases |p|
    {
      p := p[1..];
    }
    var negative := false;
    if p != "" && p[0] == '+' {
      p := p[1..];
    } else if p != "" && p[0] == '-' {
      negative := true;
      p := p[1..];
    }
    ghost var exact := Eval(DigitRun(p), 10);
    assert Number(s) == if negative then -exact else exact;
    var value := ParseDigits(p);
    if !negative {
      Negated(value, exact);
      value := A.Signed32(-value);
    }
    A.Signed32Exact(Number(s));
    r := value;
  }

  /** The digit loop, which accumulates the negated value. */
  method ParseDigits(s: string) returns (value: int)
    ensures value == A.Signed32(-Eval(DigitRun(s), 10))
  {
    value := 0;
    var p := s;
    ghost var done, run := "", DigitRun(s);
    while p != "" && IsDigit(p[0])
      invariant Parsed(run, done, p, value)
      decreases |p|
    {
      ParsedStep(run, done, p, value);
      done := done + [p[0]];
      value := A.Signed32(value * 10 - (p[0] as int - '0' as int));
      p := p[1..];
    }
    assert done + DigitRun(p) == done;
  }

  /** The digits before the cursor have been added up, and with those after it they are the run. */
  ghost predicate Parsed(run: string, done: string, left: string, value: int) {
    run == done + DigitRun(left) && value == A.Signed32(-Eval(done, 10))
  }

  lemma ParsedStep(run: string, done: string, left: string, value: int)
    requires Parsed(run, done, left, value) && left != "" && IsDigit(left[0])
    ensures Parsed(run, done + [left[0]], left[1..],
                   A.Signed32(value * 10 - (left[0] as int - '0' as int)))
  {
    var c := left[0];
    assert Eval(done + [c], 10) == 10 * Eval(done, 10) + DigitValue(c) by { assert (done + [c])[..|done|] == done; }
    Accumulated(value, -Eval(done, 10), DigitValue(c));
  }

  lemma Offset(x: int) returns (k: int)
    ensures x == A.Signed32(x) + k * 0x1_0000_0000
  {
    k := if x % 0x1_0000_0000 < 0x8000_0000 then x / 0x1_0000_0000 else x / 0x1_0000_0000 + 1;
  }

  lemma Accumulated(value: int, exact: int, d: int)
    requires value == A.Signed32(exact)
    ensures A.Signed32(value * 10 - d) == A.Signed32(exact * 10 - d)
  {
    var k := Offset(exact);
    ModShift(value * 10 - d, 10 * k, 0x1_0000_0000);
  }

  lemma Negated(value: int, exact: int)
    requires value == A.Signed32(-exact)
    ensures A.Signed32(-value) == A.Signed32(exact)
  {
    var k := Offset(-exact);
    ModShift(-value, -k, 0x1_0000_0000);
  }

  // ---------------------------------------------------------------- round trip

  /** What a signed decimal conversion of `v` prints. */
  function Print(v: int, c: Conversion): string {
    BasesValid();
    Text(A.Abs(v), true, v < 0, BASE_D, c)
  }

  /** Reading back what `%d` prints gives the number again, with any flags but grouping, any
      field width and any precision. */
  lemma PrintThenParse(v: int, c: Conversion)
    requires !c.flags.group
    ensures Number(Print(v, c)) == v
  {
    BasesValid();
    var digits := Reverse(Buffer(A.Abs(v), BASE_D, c));
    var sign := Sign(true, v < 0, c.flags);
    DigitsEvaluate(A.Abs(v), BASE_D, c);
    DecimalBuffer(A.Abs(v), BASE_D, c);
    assert Prefix(A.Abs(v), BASE_D, c.flags) == "";
    FieldNumber(c, sign, digits);
  }

  lemma DecimalBuffer(m: nat, b: Base, c: Conversion)
    requires ValidBase(b) && b.base == 10 && !c.flags.group
    ensures AllDigits(Reverse(Buffer(m, b, c)))
  {
    OnlyDigits(m, b, 0);
    var raw := Raw(m, b, false, 0);
    forall i | 0 <= i < |raw| ensures IsDigit(raw[i]) { DecimalDigit(b, raw[i]); }
    DecimalCompleted(raw, c);
  }

  lemma DecimalDigit(b: Base, ch: char)
    requires ValidBase(b) && b.base == 10 && ch in b.digits
    ensures IsDigit(ch)
  {
    var d :| 0 <= d < |b.digits| && b.digits[d] == ch;
    assert DigitValue(b.digits[d]) == d;
  }

  lemma DecimalCompleted(raw: string, c: Conversion)
    requires AllDigits(raw)
    ensures AllDigits(Completed(raw, false, c))
  {}

  predicate AllDigits(s: string) { forall i | 0 <= i < |s| :: IsDigit(s[i]) }

  /** Padding and sign do not disturb the number: spaces are skipped or end it, and zeros in
      front of the digits do not count. */
  lemma FieldNumber(c: Conversion, sign: string, digits: string)
    requires AllDigits(digits) && (sign == "" || sign == "+" || sign == "-" || sign == " ")
    ensures Number(Field(c, sign, "", digits)) == if sign == "-" then -Eval(digits, 10) else Eval(digits, 10)
  {
    var pad := Max(0, c.width - |digits| - |sign|);
    var lead := if !c.flags.minus && !c.flags.zero then pad else 0;
    var zeros := if c.flags.zero then pad else 0;
    var tail := if c.flags.minus then pad else 0;
    FieldShape(c, sign, digits);
    PaddedNumber(lead, sign, zeros, digits, tail);
  }

  lemma FieldShape(c: Conversion, sign: string, digits: string)
    ensures var pad := Max(0, c.width - |digits| - |sign|);
            Field(c, sign, "", digits) ==
              Repeat(' ', if !c.flags.minus && !c.flags.zero then pad else 0)
              + (sign + (Repeat('0', if c.flags.zero then pad else 0) + digits
                         + Repeat(' ', if c.flags.minus then pad else 0)))
  {}

  lemma PaddedNumber(lead: nat, sign: string, zeros: nat, digits: string, tail: nat)
    requires AllDigits(digits) && (sign == "" || sign == "+" || sign == "-" || sign == " ")
    ensures Number(Repeat(' ', lead) + (sign + (Repeat('0', zeros) + digits + Repeat(' ', tail)))) ==
              if sign == "-" then -Eval(digits, 10) else Eval(digits, 10)
  {
    var all, spaces := Repeat('0', zeros) + digits, Repeat(' ', tail);
    SkipLead(lead, sign + (all + spaces));
    DigitRunStops(all, spaces);
    FrontZeros(zeros, digits, 10);
    SignedNumber(sign, all, spaces);
  }

  lemma SignedNumber(sign: string, digits: string, tail: string)
    requires AllDigits(digits) && (forall i | 0 <= i < |tail| :: tail[i] == ' ')
    requires DigitRun(digits + tail) == digits
    requires sign == "" || sign == "+" || sign == "-" || sign == " "
    ensures Number(sign + (digits + tail)) == if sign == "-" then -Eval(digits, 10) else Eval(digits, 10)
  {
    var s := sign + (digits + tail);
    if sign == "+" || sign == "-" {
      assert s[1..] == digits + tail && SkipSpaces(s) == s;
    } else {
      if sign == " " { assert s[1..] == digits + tail && SkipSpaces(s) == SkipSpaces(digits + tail); }
      else { assert s == digits + tail; }
      if digits == "" {
        AllSpaces(tail);
        assert digits + tail == tail;
      } else {
        assert SkipSpaces(digits + tail) == digits + tail;
      }
    }
  }

  lemma {:induction false} AllSpaces(s: string)
    requires forall i | 0 <= i < |s| :: s[i] == ' '
    ensures SkipSpaces(s) == ""
  {
    if s != "" { AllSpaces(s[1..]); }
  }

  lemma {:induction false} SkipLead(k: nat, s: string)
    ensures SkipSpaces(Repeat(' ', k) + s) == SkipSpaces(s)
  {
    var t := Repeat(' ', k) + s;
    if k > 0 {
      assert t[1..] == Repeat(' ', k - 1) + s;
      SkipLead(k - 1, s);
    } else {
      assert t == s;
    }
  }

  lemma {:induction false} DigitRunStops(digits: string, tail: string)
    requires AllDigits(digits) && (tail == "" || !IsDigit(tail[0]))
    ensures DigitRun(digits + tail) == digits
  {
    if digits != "" {
      assert (digits + tail)[1..] == digits[1..] + tail;
      DigitRunStops(digits[1..], tail);
    } else {
      assert digits + tail == tail;
    }
  }

  /** Hence `atoi` undoes every such conversion on every `int`, INT_MIN included. */
  method AtoiOfPrint(v: A.Int32, c: Conversion) returns (r: int)
    requires !c.flags.group
    ensures r == v
  {
    BasesValid();
    var text := FormatInteger(if v < 0 then 0 - v else v, true, v < 0, BASE_D, c);
    PrintThenParse(v, c);
    r := Atoi(text);
  }
}
