/** ustar archive headers (src/lib/ustar.c): what is made can be parsed back. */
module Ustar {
  import opened Common
  import opened Format
  import opened Nonlinear
  import A = Arithmetic

  /** Bytes are characters below 256. */
  predicate IsBytes(s: string) {
    forall i | 0 <= i < |s| :: s[i] as int < 256
  }

  /** C strings contain no null; the one that ends them is left out. */
  predicate IsCString(s: string) {
    IsBytes(s) && '\0' !in s
  }

  /** `struct ustar_header` */
  datatype Header = Header(
    name: string, mode: string, uid: string, gid: string, size: string, mtime: string, chksum: string,
    typeflag: char, linkname: string, magic: string, version: string, uname: string, gname: string,
    devmajor: string, devminor: string, prefix: string, padding: string)

  predicate WellFormed(h: Header) {
    && |h.name| == 100 && |h.mode| == 8 && |h.uid| == 8 && |h.gid| == 8 && |h.size| == 12
    && |h.mtime| == 12 && |h.chksum| == 8 && |h.linkname| == 100 && |h.magic| == 6 && |h.version| == 2
    && |h.uname| == 32 && |h.gname| == 32 && |h.devmajor| == 8 && |h.devminor| == 8
    && |h.prefix| == 155 && |h.padding| == 12
  }

  /** The header as it lies in memory: before, at and after the checksum field. */
  function Before(h: Header): string { h.name + h.mode + h.uid + h.gid + h.size + h.mtime }

  function After(h: Header): string {
    [h.typeflag] + h.linkname + h.magic + h.version + h.uname + h.gname
    + h.devmajor + h.devminor + h.prefix + h.padding
  }

  function Bytes(h: Header): (b: string)
    requires WellFormed(h)
    ensures |b| == 512 && b[148..156] == h.chksum
  {
    Before(h) + h.chksum + After(h)
  }

  // ---------------------------------------------------------------- checksum

  const CHKSUM_START: nat := 148
  const CHKSUM_END: nat := 156

  /** The sum of the bytes from `i` on, the checksum field counted as spaces. */
  function SumFrom(b: string, i: nat): nat
    requires i <= |b|
    decreases |b| - i
  {
    if i == |b| then 0
    else (if CHKSUM_START <= i < CHKSUM_END then ' ' else b[i]) as int + SumFrom(b, i + 1)
  }

  /** `calculate_chksum` */
  method CalculateChksum(b: string) returns (chksum: nat)
    requires |b| == 512
    ensures chksum == SumFrom(b, 0)
  {
    chksum := 0;
    for i := 0 to 512
      invariant chksum + SumFrom(b, i) == SumFrom(b, 0)
    {
      chksum := chksum + (if CHKSUM_START <= i < CHKSUM_END then ' ' else b[i]) as int;
    }
  }

  /** The checksum does not depend on the field it will be stored in. */
  lemma {:induction false} OwnFieldIgnored(b: string, b': string, i: nat)
    requires |b| == |b'| && i <= |b|
    requires forall j | 0 <= j < |b| && !(CHKSUM_START <= j < CHKSUM_END) :: b[j] == b'[j]
    ensures SumFrom(b, i) == SumFrom(b', i)
    decreases |b| - i
  {
    if i < |b| { OwnFieldIgnored(b, b', i + 1); }
  }

  lemma {:induction false} SumBound(b: string, i: nat)
    requires i <= |b| && IsBytes(b)
    ensures SumFrom(b, i) <= 255 * (|b| - i)
    decreases |b| - i
  {
    if i < |b| { SumBound(b, i + 1); }
  }

  /** Changing one byte outside the checksum field changes the sum by as much. */
  lemma {:induction false} SumChange(b: string, i: nat, c: char, j: nat)
    requires i < |b| && !(CHKSUM_START <= i < CHKSUM_END) && j <= |b|
    ensures SumFrom(b[i := c], j) == SumFrom(b, j) + if j <= i then c as int - b[i] as int else 0
    decreases |b| - j
  {
    if j < |b| { SumChange(b, i, c, j + 1); }
  }

  /** Of a header of zeros only the spaces that stand for the checksum field count. */
  lemma SumOfZeros(b: string)
    requires |b| == 512 && AllZeros(b)
    ensures SumFrom(b, 0) == 8 * 32
  {
    ZerosFrom(b, 0);
  }

  lemma {:induction false} ZerosFrom(b: string, j: nat)
    requires |b| == 512 && AllZeros(b) && j <= 512
    ensures SumFrom(b, j) == 32 * (CHKSUM_END - Min(CHKSUM_END, Max(CHKSUM_START, j)))
    decreases |b| - j
  {
    if j < |b| { ZerosFrom(b, j + 1); }
  }

  lemma StoredChksum(h: Header, chksum: string)
    requires WellFormed(h) && |chksum| == 8
    ensures WellFormed(h.(chksum := chksum)) && SumFrom(Bytes(h.(chksum := chksum)), 0) == SumFrom(Bytes(h), 0)
  {
    var h' := h.(chksum := chksum);
    assert Before(h') == Before(h) && After(h') == After(h);
    OwnFieldIgnored(Bytes(h), Bytes(h'), 0);
  }

  // ---------------------------------------------------------------- names

  predicate StartsWith(s: string, p: string) { |p| <= |s| && s[..|p|] == p }

  /** What may be dropped from the front of a name. */
  predicate Antisocial(s: string) {
    StartsWith(s, "/") || StartsWith(s, "./") || StartsWith(s, "../")
  }

  /** Where the first slash is, from `i` on. */
  function FirstSlash(s: string, i: nat): (k: nat)
    requires i <= |s| && '/' in s[i..]
    ensures i <= k < |s| && s[k] == '/' && forall j | i <= j < k :: s[j] != '/'
    decreases |s| - i
  {
    if s[i] == '/' then i
    else
      assert s[i..] == [s[i]] + s[i + 1..];
      FirstSlash(s, i + 1)
  }

  /** What follows the first slash. */
  function AfterSlash(s: string): (r: string)
    requires '/' in s
    ensures |r| < |s|
  {
    assert s[0..] == s;
    s[FirstSlash(s, 0) + 1..]
  }

  lemma HasSlash(s: string)
    requires Antisocial(s)
    ensures '/' in s
  {
    if StartsWith(s, "/") { assert s[0] == '/'; }
    else if StartsWith(s, "./") { assert s[..2][1] == '/'; }
    else { assert s[..3][2] == '/'; }
  }

  function StripPrefixes(s: string): (r: string)
    ensures !Antisocial(r)
    decreases |s|
  {
    if Antisocial(s) then HasSlash(s); StripPrefixes(AfterSlash(s)) else s
  }

  function Strip(s: string): string {
    var r := StripPrefixes(s);
    if r == "" || r == ".." then "." else r
  }

  /** `strip_antisocial_prefixes` */
  method StripAntisocialPrefixes(fileName: string) returns (r: string)
    ensures r == Strip(fileName)
  {
    var p := fileName;
    while Antisocial(p)
      invariant StripPrefixes(p) == StripPrefixes(fileName)
      decreases |p|
    {
      HasSlash(p);
      p := AfterSlash(p);
    }
    r := if p == "" || p == ".." then "." else p;
  }

  /** A sequence of `/`, `./` and `../`. */
  predicate Droppable(p: string) {
    || p == ""
    || (StartsWith(p, "/") && Droppable(p[1..]))
    || (StartsWith(p, "./") && Droppable(p[2..]))
    || (StartsWith(p, "../") && Droppable(p[3..]))
  }

  /** What is dropped is a sequence of `/`, `./` and `../`, and all of it; what is left is untouched,
      except that `.` stands for nothing and for `..`. */
  lemma StripExact(s: string) returns (p: string, rest: string)
    ensures s == p + rest && Droppable(p) && !Antisocial(rest)
    ensures Strip(s) == if rest == "" || rest == ".." then "." else rest
  {
    p := Dropped(s);
    rest := StripPrefixes(s);
  }

  lemma {:induction false} Dropped(s: string) returns (p: string)
    ensures s == p + StripPrefixes(s) && Droppable(p)
    decreases |s|
  {
    if Antisocial(s) {
      HasSlash(s);
      var n := FirstPiece(s);
      var q := Dropped(s[n..]);
      PieceFirst(s[..n], q);
      p := s[..n] + q;
      Rejoin(s, n, q, StripPrefixes(s[n..]));
    } else {
      p := "";
    }
  }

  lemma Rejoin(s: string, n: nat, q: string, r: string)
    requires n <= |s| && s[n..] == q + r
    ensures s == s[..n] + q + r
  {
    assert s == s[..n] + s[n..];
  }

  lemma PieceFirst(q: string, p: string)
    requires (q == "/" || q == "./" || q == "../") && Droppable(p)
    ensures Droppable(q + p)
  {
    assert (q + p)[|q|..] == p && (q + p)[..|q|] == q;
  }

  /** The first piece of an antisocial name ends with its first slash. */
  lemma FirstPiece(s: string) returns (n: nat)
    requires Antisocial(s) && '/' in s
    ensures 1 <= n <= 3 && n <= |s| && (s[..n] == "/" || s[..n] == "./" || s[..n] == "../")
    ensures AfterSlash(s) == s[n..]
  {
    assert s[0..] == s;
    n := FirstSlash(s, 0) + 1;
    if StartsWith(s, "/") {
      assert s[0] == '/';
    } else if StartsWith(s, "./") {
      assert s[..2][0] == '.' && s[..2][1] == '/';
    } else {
      assert s[..3][0] == '.' && s[..3][1] == '.' && s[..3][2] == '/';
    }
  }

  /** A stripped name is safe: it is not empty, not absolute, and does not start by leaving the
      directory; stripping it again changes nothing. */
  lemma StripIdempotent(s: string)
    ensures Strip(s) != "" && Strip(s) != ".." && !Antisocial(Strip(s)) && Strip(Strip(s)) == Strip(s)
  {
    assert !Antisocial(".") by { assert "."[0] == '.'; }
    assert StripPrefixes(Strip(s)) == Strip(s);
  }

  lemma {:induction false} StripIsCString(s: string)
    requires IsCString(s)
    ensures IsCString(Strip(s))
    decreases |s|
  {
    if Antisocial(s) {
      HasSlash(s);
      StripIsCString(AfterSlash(s));
    }
  }

  // ---------------------------------------------------------------- octal fields

  /** What `snprintf` leaves in a field of `size` zeros. */
  function Stored(text: string, size: nat): (r: string)
    requires size > 0
    ensures |r| == size
  {
    var kept := text[..Min(|text|, size - 1)];
    kept + Repeat('\0', size - |kept|)
  }

  function OctalText(v: nat, width: nat): string {
    BasesValid();
    Text(v, false, false, BASE_O, Conversion(Flags(false, false, false, false, true, false), width, -1))
  }

  /** A field filled with `%0No`, where N is one less than the field's size. */
  function OctalField(v: nat, size: nat): (r: string)
    requires size > 0
    ensures |r| == size
  {
    Stored(OctalText(v, size - 1), size)
  }

  predicate IsOctal(c: char) { '0' <= c <= '7' }

  /** The octal digits that a string starts with. */
  function OctalRun(s: string): (r: string)
    ensures |r| <= |s| && forall i | 0 <= i < |r| :: IsOctal(r[i])
  {
    if s != "" && IsOctal(s[0]) then [s[0]] + OctalRun(s[1..]) else ""
  }

  /** The value of an octal field: at least one digit, then a space or null, fitting 32 bits. */
  function OctalValue(s: string): Option<int> {
    var run := OctalRun(s);
    if run != "" && |run| < |s| && s[|run|] in {' ', '\0'} && Eval(run, 8) < 0x1_0000_0000
    then Some(Eval(run, 8)) else None
  }

  /** `parse_octal_field` */
  method ParseOctalField(s: string) returns (r: Option<int>)
    ensures r == OctalValue(s)
  {
    var value := 0;
    var ofs := 0;
    while ofs < |s|
      invariant 0 <= ofs <= |s| && value == Eval(s[..ofs], 8) && 0 <= value < 0x1_0000_0000
      invariant OctalRun(s) == s[..ofs] + OctalRun(s[ofs..])
    {
      var c := s[ofs];
      assert s[ofs..][1..] == s[ofs + 1..] && s[..ofs + 1] == s[..ofs] + [c];
      if IsOctal(c) {
        assert OctalRun(s) == s[..ofs + 1] + OctalRun(s[ofs + 1..]);
        EvalOctal(s[..ofs], c);
        if value > 0xffff_ffff / 8 {
          RunGrows(s[..ofs + 1], OctalRun(s[ofs + 1..]));
          return None;
        }
        value := (c as int - '0' as int) + value * 8;
      } else {
        assert OctalRun(s) == s[..ofs];
        return if (c == ' ' || c == '\0') && ofs > 0 then Some(value) else None;
      }
      ofs := ofs + 1;
    }
    assert OctalRun(s) == s;
    return None;
  }

  /** The field begins with `k` octal digits of value `v` and a space or null behind them. */
  predicate OctalAt(s: string, k: nat, v: int) {
    && 0 < k < |s| && (forall i | 0 <= i < k :: IsOctal(s[i])) && (s[k] == ' ' || s[k] == '\0')
    && Eval(s[..k], 8) == v
  }

  /** Exactly the fields that begin with octal digits, at least one, which a space or null ends, and
      whose value fits 32 bits, are read, as that value. */
  lemma OctalExact(s: string, v: int)
    ensures OctalValue(s) == Some(v) <==> v < 0x1_0000_0000 && exists k: nat :: OctalAt(s, k, v)
  {
    var run := OctalRun(s);
    RunIsPrefix(s);
    if OctalValue(s) == Some(v) { assert OctalAt(s, |run|, v); }
    if k: nat :| OctalAt(s, k, v) {
      RunIs(s, k);
    }
  }

  lemma {:induction false} RunIsPrefix(s: string)
    ensures OctalRun(s) == s[..|OctalRun(s)|]
  {
    if s != "" && IsOctal(s[0]) {
      RunIsPrefix(s[1..]);
      var n := |OctalRun(s[1..])|;
      assert s[..n + 1] == [s[0]] + s[1..][..n];
    }
  }

  lemma {:induction false} RunIs(s: string, k: nat)
    requires k < |s| && (forall i | 0 <= i < k :: IsOctal(s[i])) && !IsOctal(s[k])
    ensures OctalRun(s) == s[..k]
  {
    if k > 0 {
      RunIs(s[1..], k - 1);
      assert s[..k] == [s[0]] + s[1..][..k - 1];
    }
  }

  lemma EvalOctal(s: string, c: char)
    requires IsOctal(c)
    ensures Eval(s + [c], 8) == 8 * Eval(s, 8) + (c as int - '0' as int)
  {
    assert (s + [c])[..|s|] == s;
  }

  lemma {:induction false} RunGrows(p: string, q: string)
    requires Eval(p, 8) >= 0 && forall i | 0 <= i < |q| :: IsOctal(q[i])
    ensures Eval(p + q, 8) >= Eval(p, 8)
    decreases |q|
  {
    if q == "" {
      assert p + q == p;
    } else {
      var q' := q[..|q| - 1];
      RunGrows(p, q');
      assert p + q == (p + q') + [q[|q| - 1]];
      EvalOctal(p + q', q[|q| - 1]);
    }
  }

  lemma {:induction false} RawLength(v: nat, b: Base, cnt: nat, n: nat)
    requires ValidBase(b) && InRoom(v, n)
    ensures |Raw(v, b, false, cnt)| <= n
  {
    if v > 0 {
      DigitTaken(v, n, b);
      RawLength(Quo(v, b.base), b, cnt + 1, n - 1);
    }
  }

  /** `%0No` prints N octal digits whose value is the number, if it has no more than N. */
  lemma OctalTextDigits(v: nat, width: nat)
    requires width > 0 && InRoom(v, width)
    ensures var text := OctalText(v, width);
            |text| == width && Eval(text, 8) == v && forall i | 0 <= i < width :: IsOctal(text[i])
  {
    BasesValid();
    ZeroText(v, BASE_O, Conversion(Flags(false, false, false, false, true, false), width, -1));
  }

  lemma ZeroText(v: nat, b: Base, c: Conversion)
    requires ValidBase(b) && b.base == 8 && c.width > 0 && InRoom(v, c.width) && c.precision < 0
    requires c.flags == Flags(false, false, false, false, true, false)
    ensures var text := Text(v, false, false, b, c);
            |text| == c.width && Eval(text, 8) == v && forall i | 0 <= i < c.width :: IsOctal(text[i])
  {
    var digits := Reverse(Buffer(v, b, c));
    OctalBuffer(v, b, c);
    ZeroField(c, digits);
    assert Text(v, false, false, b, c) == Field(c, "", "", digits);
    DigitsEvaluate(v, b, c);
    FrontZeros(c.width - |digits|, digits, 8);
  }

  lemma OctalBuffer(v: nat, b: Base, c: Conversion)
    requires ValidBase(b) && b.base == 8 && c.width > 0 && InRoom(v, c.width)
    requires !c.flags.pound && !c.flags.group && c.precision < 0
    ensures var buf := Buffer(v, b, c); |buf| <= c.width && forall i | 0 <= i < |buf| :: IsOctal(buf[i])
  {
    RawLength(v, b, 0, c.width);
    OnlyDigits(v, b, 0);
    var raw := Raw(v, b, false, 0);
    forall i | 0 <= i < |raw| ensures IsOctal(raw[i]) { OctalDigit(b, raw[i]); }
    OctalCompleted(raw, c);
  }

  lemma OctalDigit(b: Base, ch: char)
    requires ValidBase(b) && b.base == 8 && ch in b.digits
    ensures IsOctal(ch)
  {
    var d :| 0 <= d < |b.digits| && b.digits[d] == ch;
    assert DigitValue(b.digits[d]) == d;
  }

  lemma OctalCompleted(raw: string, c: Conversion)
    requires c.width > 0 && |raw| <= c.width && !c.flags.pound && c.precision < 0
    requires forall i | 0 <= i < |raw| :: IsOctal(raw[i])
    ensures var buf := Completed(raw, true, c); |buf| <= c.width && forall i | 0 <= i < |buf| :: IsOctal(buf[i])
  {}

  lemma ZeroField(c: Conversion, digits: string)
    requires c.flags.zero && !c.flags.minus && |digits| <= c.width
    ensures Field(c, "", "", digits) == Repeat('0', c.width - |digits|) + digits
  {}

  /** Reading an octal field gives back the number that was stored in it. */
  lemma OctalRoundTrip(v: nat, size: nat)
    requires size > 1 && InRoom(v, size - 1) && v < 0x1_0000_0000
    ensures OctalValue(OctalField(v, size)) == Some(v) && IsBytes(OctalField(v, size))
  {
    var text := OctalText(v, size - 1);
    OctalTextDigits(v, size - 1);
    assert text[..size - 1] == text && Repeat('\0', 1) == "\0";
    assert OctalField(v, size) == text + "\0";
    RunOf(text);
  }

  lemma {:induction false} RunOf(s: string)
    requires forall i | 0 <= i < |s| :: IsOctal(s[i])
    ensures OctalRun(s + "\0") == s
  {
    if s != "" {
      assert (s + "\0")[1..] == s[1..] + "\0";
      RunOf(s[1..]);
    }
  }

  // ---------------------------------------------------------------- make

  const REGULAR: char := '0'
  const DIRECTORY: char := '5'

  /** The permissions 0644 and 0755. */
  function ModeOf(typeflag: char): nat { if typeflag == REGULAR then 420 else 493 }

  /** Written in octal: everyone may read, the owner may write, and only directories may be entered. */
  lemma Permissions()
    ensures ModeOf(REGULAR) == Eval("644", 8) && ModeOf(DIRECTORY) == Eval("755", 8)
  {
    assert "644"[..2] == "64" && "64"[..1] == "6" && "755"[..2] == "75" && "75"[..1] == "7";
    assert Eval("6", 8) == 6 && Eval("64", 8) == 52 && Eval("7", 8) == 7 && Eval("75", 8) == 61;
  }

  /** January 1, 2006 */
  const MTIME: nat := 1136102400

  function Zeros(n: nat): string { Repeat('\0', n) }

  method Memset(n: nat) returns (s: string)
    ensures |s| == n && AllZeros(s)
  {
    s := Zeros(n);
  }

  /** A header after `memset`. */
  method ZeroHeader() returns (h: Header)
    ensures WellFormed(h) && AllZeros(h.linkname) && AllZeros(h.devmajor) && AllZeros(h.devminor)
    ensures AllZeros(h.prefix) && AllZeros(h.padding) && AllZeros(h.chksum)
  {
    var z := Memset(155);
    h := Header(z[..100], z[..8], z[..8], z[..8], z[..12], z[..12], z[..8], '\0', z[..100], z[..6], z[..2],
                z[..32], z[..32], z[..8], z[..8], z, z[..12]);
  }

  /** An octal field that holds `v`. */
  predicate ReadsAs(field: string, v: int) { IsBytes(field) && OctalValue(field) == Some(v) }

  /** A field that holds the C string `s`. */
  predicate Holds(field: string, s: string) {
    IsBytes(field) && CString(field) == s && field != "" && field[|field| - 1] == '\0'
  }

  predicate LeftFields(h: Header, name: string, typeflag: char, size: A.Int32) {
    && Holds(h.name, name) && ReadsAs(h.mode, ModeOf(typeflag)) && Holds(h.uid, "0000000")
    && Holds(h.gid, "0000000") && ReadsAs(h.size, A.Wrap32(size)) && ReadsAs(h.mtime, MTIME)
  }

  predicate RightFields(h: Header, typeflag: char) {
    && h.typeflag == typeflag && h.magic == "ustar\0" && h.version == "00"
    && Holds(h.gname, "root") && Holds(h.uname, "root")
    && AllZeros(h.linkname) && AllZeros(h.devmajor) && AllZeros(h.devminor)
    && AllZeros(h.prefix) && AllZeros(h.padding)
  }

  /** A finished header for a file of that (stripped) name, type and size. */
  predicate IsMade(h: Header, name: string, typeflag: char, size: A.Int32) {
    && WellFormed(h) && LeftFields(h, name, typeflag, size) && RightFields(h, typeflag)
    && ReadsAs(h.chksum, SumFrom(Bytes(h), 0))
  }

  /** `strlcpy` into a field of zeros. */
  method Strlcpy(text: string, size: nat) returns (field: string)
    requires |text| < size && IsCString(text)
    ensures |field| == size && Holds(field, text)
  {
    StoredWhole(text, size);
    CStringOfStored(text, size - |text|);
    field := Stored(text, size);
  }

  /** `snprintf` of `%0No` into a field of zeros. */
  method PutOctal(v: nat, size: nat) returns (field: string)
    requires size > 1 && InRoom(v, size - 1) && v < 0x1_0000_0000
    ensures |field| == size && ReadsAs(field, v)
  {
    BasesValid();
    OctalRoundTrip(v, size);
    var c := Conversion(Flags(false, false, false, false, true, false), size - 1, -1);
    var text := FormatInteger(v, false, false, BASE_O, c);
    field := Stored(text, size);
  }

  /** `ustar_make_header` */
  method MakeHeader(fileName: string, typeflag: char, size: A.Int32) returns (r: Option<Header>)
    requires IsCString(fileName) && (typeflag == REGULAR || typeflag == DIRECTORY)
    ensures r.Some? <==> |Strip(fileName)| <= 99
    ensures r.Some? ==> IsMade(r.value, Strip(fileName), typeflag, size)
  {
    var name := StripAntisocialPrefixes(fileName);
    if |name| > 99 {
      return None;
    }
    StripIsCString(fileName);
    var left := FillLeft(name, typeflag, size);
    var h := FillRight(left, typeflag);
    assert LeftFields(h, name, typeflag, size);
    LeftBytes(h, name, typeflag, size);
    RightBytes(h, typeflag);
    var chksum := CalculateChksum(Bytes(h));
    ChksumFits(h);
    var field := PutOctal(chksum, 8);
    StoredChksum(h, field);
    h := h.(chksum := field);
    return Some(h);
  }

  /** The assignments to the fields up to `mtime`. */
  method FillLeft(name: string, typeflag: char, size: A.Int32) returns (h: Header)
    requires IsCString(name) && |name| <= 99
    ensures WellFormed(h) && LeftFields(h, name, typeflag, size) && AllZeros(h.chksum)
    ensures AllZeros(h.linkname) && AllZeros(h.devmajor) && AllZeros(h.devminor)
    ensures AllZeros(h.prefix) && AllZeros(h.padding)
  {
    SmallFields(typeflag, size);
    h := ZeroHeader();
    var nameField := Strlcpy(name, 100);
    var mode := PutOctal(ModeOf(typeflag), 8);
    var id := Strlcpy("0000000", 8);
    var sizeField := PutOctal(A.Wrap32(size), 12);
    var mtime := PutOctal(MTIME, 12);
    h := h.(name := nameField);
    h := h.(mode := mode);
    h := h.(uid := id);
    h := h.(gid := id);
    h := h.(size := sizeField);
    h := h.(mtime := mtime);
  }

  /** The assignments from `typeflag` to `uname`. */
  method FillRight(left: Header, typeflag: char) returns (h: Header)
    requires WellFormed(left) && AllZeros(left.linkname) && AllZeros(left.devmajor)
    requires AllZeros(left.devminor) && AllZeros(left.prefix) && AllZeros(left.padding)
    ensures WellFormed(h) && Before(h) == Before(left) && h.name == left.name && h.mode == left.mode
    ensures h.uid == left.uid && h.gid == left.gid && h.size == left.size && h.mtime == left.mtime
    ensures RightFields(h, typeflag) && h.chksum == left.chksum
  {
    var root := Strlcpy("root", 32);
    h := left.(typeflag := typeflag);
    h := h.(magic := "ustar\0");
    h := h.(version := "00");
    h := h.(gname := root);
    h := h.(uname := root);
  }

  // ---------------------------------------------------------------- parse

  datatype Parsed = EndOfArchive | Error(message: string) | Entry(name: string, typeflag: char, size: int)

  /** The C string that a field holds. */
  function CString(field: string): string {
    if field == "" || field[0] == '\0' then "" else [field[0]] + CString(field[1..])
  }

  predicate AllZeros(s: string) { forall i | 0 <= i < |s| :: s[i] == '\0' }

  function Parse(h: Header): Parsed
    requires WellFormed(h)
  {
    var chksum := OctalValue(h.chksum);
    var size := OctalValue(h.size);
    if AllZeros(Bytes(h)) then EndOfArchive
    else if h.magic != "ustar\0" then Error("not a ustar archive")
    else if h.version != "00" then Error("invalid ustar version")
    else if chksum.None? then Error("corrupt chksum field")
    else if chksum.value != SumFrom(Bytes(h), 0) then Error("checksum mismatch")
    else if h.name[99] != '\0' || h.prefix[0] != '\0' then Error("file name too long")
    else if h.typeflag != REGULAR && h.typeflag != DIRECTORY then Error("unimplemented file type")
    else if h.typeflag == REGULAR && size.None? then Error("corrupt file size field")
    else if h.typeflag == REGULAR && size.value > 0x7fff_ffff then Error("file too large")
    else Entry(Strip(CString(h.name)), h.typeflag, if h.typeflag == REGULAR then size.value else 0)
  }

  /** `ustar_parse_header` */
  method ParseHeader(h: Header) returns (r: Parsed)
    requires WellFormed(h)
    ensures r == Parse(h)
  {
    var header := Bytes(h);
    var i := 0;
    while i < 512 && header[i] == '\0'
      invariant 0 <= i <= 512 && forall j | 0 <= j < i :: header[j] == '\0'
    {
      i := i + 1;
    }
    if i == 512 {
      return EndOfArchive;
    }
    var chksum := ParseOctalField(h.chksum);
    var sum := CalculateChksum(header);
    if h.magic != "ustar\0" {
      return Error("not a ustar archive");
    } else if h.version[0] != '0' || h.version[1] != '0' {
      return Error("invalid ustar version");
    } else if chksum.None? {
      return Error("corrupt chksum field");
    } else if chksum.value != sum {
      return Error("checksum mismatch");
    } else if h.name[99] != '\0' || h.prefix[0] != '\0' {
      return Error("file name too long");
    } else if h.typeflag != REGULAR && h.typeflag != DIRECTORY {
      return Error("unimplemented file type");
    }
    var size := 0;
    if h.typeflag == REGULAR {
      var field := ParseOctalField(h.size);
      if field.None? {
        return Error("corrupt file size field");
      } else if field.value > 0x7fff_ffff {
        return Error("file too large");
      }
      size := field.value;
    }
    var name := StripAntisocialPrefixes(CString(h.name));
    return Entry(name, h.typeflag, size);
  }

  // ---------------------------------------------------------------- round trip

  lemma {:induction false} CStringOfStored(name: string, n: nat)
    requires '\0' !in name
    ensures CString(name + Zeros(n)) == name
  {
    if name == "" {
      assert n > 0 ==> (name + Zeros(n))[0] == '\0';
    } else {
      assert (name + Zeros(n))[1..] == name[1..] + Zeros(n);
      CStringOfStored(name[1..], n);
    }
  }

  lemma StoredWhole(text: string, size: nat)
    requires |text| < size
    ensures Stored(text, size) == text + Zeros(size - |text|)
  {
    assert text[..|text|] == text;
  }

  lemma BytesConcat(a: string, b: string)
    requires IsBytes(a) && IsBytes(b)
    ensures IsBytes(a + b)
  {}

  lemma SmallFields(typeflag: char, size: A.Int32)
    ensures InRoom(ModeOf(typeflag), 7) && InRoom(A.Wrap32(size), 11) && InRoom(MTIME, 11)
  {
    Pow32();
    assert Pow2(9) == 512;
    RoomFor(ModeOf(typeflag), 9, 7);
    RoomFor(A.Wrap32(size), 32, 11);
    RoomFor(MTIME, 32, 11);
  }

  lemma LeftBytes(h: Header, name: string, typeflag: char, size: A.Int32)
    requires LeftFields(h, name, typeflag, size)
    ensures IsBytes(Before(h))
  {
    BytesConcat(h.name, h.mode);
    BytesConcat(h.name + h.mode, h.uid);
    BytesConcat(h.name + h.mode + h.uid, h.gid);
    BytesConcat(h.name + h.mode + h.uid + h.gid, h.size);
    BytesConcat(h.name + h.mode + h.uid + h.gid + h.size, h.mtime);
  }

  lemma RightBytes(h: Header, typeflag: char)
    requires RightFields(h, typeflag) && (typeflag == REGULAR || typeflag == DIRECTORY)
    ensures IsBytes(After(h))
  {
    var a := [h.typeflag] + h.linkname;
    BytesConcat([h.typeflag], h.linkname);
    BytesConcat(a, h.magic);
    BytesConcat(a + h.magic, h.version);
    BytesConcat(a + h.magic + h.version, h.uname);
    BytesConcat(a + h.magic + h.version + h.uname, h.gname);
    BytesConcat(a + h.magic + h.version + h.uname + h.gname, h.devmajor);
  }

  /** The sum of a header of bytes fits the checksum field. */
  lemma ChksumFits(h: Header)
    requires WellFormed(h) && IsBytes(Before(h)) && IsBytes(After(h))
    ensures InRoom(SumFrom(Bytes(h), 0), 7) && SumFrom(Bytes(h), 0) < 0x2_0000
  {
    var spaces := Repeat(' ', 8);
    var h' := h.(chksum := spaces);
    StoredChksum(h, spaces);
    BytesConcat(Before(h), spaces);
    BytesConcat(Before(h) + spaces, After(h));
    SumBound(Bytes(h'), 0);
    assert Pow2(17) == 0x2_0000 by { assert Pow2(8) == 256; }
    RoomFor(SumFrom(Bytes(h), 0), 17, 7);
  }

  /** Parsing a made header gives the stripped name, the type and the size; the one exception is
      a regular file of negative size, which is taken to be too large. */
  lemma RoundTrip(fileName: string, typeflag: char, size: A.Int32, h: Header)
    requires IsCString(fileName) && |Strip(fileName)| <= 99
    requires typeflag == REGULAR || typeflag == DIRECTORY
    requires IsMade(h, Strip(fileName), typeflag, size)
    ensures Parse(h) == if typeflag == REGULAR && size < 0 then Error("file too large")
                        else Entry(Strip(fileName), typeflag, if typeflag == REGULAR then size else 0)
  {
    StripIdempotent(fileName);
    assert !AllZeros(Bytes(h)) by { MagicInBytes(h); }
  }

  // ---------------------------------------------------------------- what the parser accepts

  /** An entry is what has the right magic and version, a checksum field that reads as the sum of its
      bytes, a name that ends and no prefix, a type that is known and, if it is a regular file, a
      size that can be read and is an `int`; zeros are the end of the archive. */
  lemma ParseExact(h: Header)
    requires WellFormed(h)
    ensures Parse(h).EndOfArchive? <==> AllZeros(Bytes(h))
    ensures Parse(h).Entry? <==>
              && h.magic == "ustar\0" && h.version == "00"
              && (exists k: nat :: OctalAt(h.chksum, k, SumFrom(Bytes(h), 0))) && SumFrom(Bytes(h), 0) < 0x1_0000_0000
              && h.name[99] == '\0' && h.prefix[0] == '\0'
              && (h.typeflag == '5' || (h.typeflag == '0' && SizeReads(h)))
    ensures Parse(h).Entry? ==>
              && Parse(h).name == Strip(CString(h.name)) && Parse(h).typeflag == h.typeflag
              && (h.typeflag == '5' ==> Parse(h).size == 0)
              && (h.typeflag == '0' ==> exists k: nat :: OctalAt(h.size, k, Parse(h).size))
  {
    OctalExact(h.chksum, SumFrom(Bytes(h), 0));
    if OctalValue(h.size).Some? { OctalExact(h.size, OctalValue(h.size).value); }
    if k: nat, v :| OctalAt(h.size, k, v) && v <= 0x7fff_ffff { OctalExact(h.size, v); }
    assert AllZeros(Bytes(h)) ==> h.magic != "ustar\0" by { MagicInBytes(h); }
  }

  ghost predicate SizeReads(h: Header) {
    exists k: nat, v: int :: OctalAt(h.size, k, v) && v <= 0x7fff_ffff
  }

  lemma MagicInBytes(h: Header)
    requires WellFormed(h)
    ensures Bytes(h)[257] == h.magic[0]
  {}

  /** The error is that of the first test that fails, in the order of the code. */
  lemma ParseErrors(h: Header)
    requires WellFormed(h) && Parse(h).Error?
    ensures var m := Parse(h).message; var sum := SumFrom(Bytes(h), 0);
            if h.magic != "ustar\0" then m == "not a ustar archive"
            else if h.version != "00" then m == "invalid ustar version"
            else if OctalValue(h.chksum) == None then m == "corrupt chksum field"
            else if OctalValue(h.chksum) != Some(sum) then m == "checksum mismatch"
            else if h.name[99] != '\0' || h.prefix[0] != '\0' then m == "file name too long"
            else if h.typeflag != '0' && h.typeflag != '5' then m == "unimplemented file type"
            else if OctalValue(h.size) == None then m == "corrupt file size field"
            else m == "file too large"
  {}

  /** A made header that is damaged in one byte outside its checksum field is never taken for an
      entry, nor for the end of the archive. */
  lemma DamageDetected(h: Header, name: string, typeflag: char, size: A.Int32, h': Header, i: nat, c: char)
    requires IsMade(h, name, typeflag, size) && WellFormed(h')
    requires i < 512 && !(CHKSUM_START <= i < CHKSUM_END) && c != Bytes(h)[i]
    requires Bytes(h') == Bytes(h)[i := c]
    ensures Parse(h').Error?
  {
    SumChange(Bytes(h), i, c, 0);
    SameField(h, h', i, c);
    WrongSum(h', SumFrom(Bytes(h), 0));
  }

  lemma SameField(h: Header, h': Header, i: nat, c: char)
    requires WellFormed(h) && WellFormed(h') && i < 512 && !(CHKSUM_START <= i < CHKSUM_END)
    requires Bytes(h') == Bytes(h)[i := c]
    ensures h'.chksum == h.chksum
  {
    assert Bytes(h')[148..156] == Bytes(h)[148..156];
  }

  /** A header whose checksum field reads as something other than the sum of its bytes. */
  lemma WrongSum(h: Header, v: int)
    requires WellFormed(h) && OctalValue(h.chksum) == Some(v) && v != SumFrom(Bytes(h), 0)
    ensures Parse(h).Error?
  {
    FirstDigit(h);
  }

  lemma FirstDigit(h: Header)
    requires WellFormed(h) && OctalValue(h.chksum).Some?
    ensures IsOctal(h.chksum[0]) && Bytes(h)[148] == h.chksum[0]
  {
    assert OctalRun(h.chksum) != "";
    assert Bytes(h)[148..156][0] == h.chksum[0];
  }

  /** A header made for a regular file of size -1 is not parsed back. */
  method NegativeSize() returns (r: Parsed)
    ensures r == Error("file too large")
  {
    assert Strip("a") == "a";
    var h := MakeHeader("a", REGULAR, -1);
    RoundTrip("a", REGULAR, -1, h.value);
    r := ParseHeader(h.value);
  }
}
