/** Start sectors: printed for the device, relative to the end of the disk if they are negative, and
    evaluated as an expression. */
module StartSector {
  import opened CString
  import opened Arith

  const MAX_STRING_LEN: nat := 512
  const INT64_MAX: int := 0x7fff_ffff_ffff_ffff
  const INT64_MIN: int := -0x8000_0000_0000_0000
  const U64: int := 0x1_0000_0000_0000_0000
  const NUM_DISK_SECTORS: string := "NUM_DISK_SECTORS"

  predicate IsDigit(c: char) { '0' <= c <= '9' }

  /** n in decimal. */
  function Digits(n: nat): (s: string)
    ensures |s| > 0 && forall i | 0 <= i < |s| :: IsDigit(s[i])
  {
    if n < 10 then [(n + '0' as int) as char] else Digits(n / 10) + [(n % 10 + '0' as int) as char]
  }

  /** What a string of digits means. */
  function Number(s: string): int {
    if s == [] then 0 else 10 * Number(s[..|s| - 1]) + (s[|s| - 1] as int - '0' as int)
  }

  lemma {:induction false} NumberOfDigits(n: nat)
    ensures Number(Digits(n)) == n
  {
    if n >= 10 {
      NumberOfDigits(n / 10);
      var s := Digits(n);
      assert s[..|s| - 1] == Digits(n / 10);
    }
  }

  /** How many digits a string starts with. */
  function Leading(s: string): (n: nat)
    ensures n <= |s| && (forall i | 0 <= i < n :: IsDigit(s[i])) && (n < |s| ==> !IsDigit(s[n]))
  {
    if s == [] || !IsDigit(s[0]) then 0 else 1 + Leading(s[1..])
  }

  function Clamp(x: int): int {
    if x > INT64_MAX then INT64_MAX else if x < INT64_MIN then INT64_MIN else x
  }

  predicate IsSpace(c: char) { c == ' ' || '\t' <= c <= '\r' }

  /** atoll: blanks, a sign, digits; what does not fit gives the nearest number that does. */
  function Atoll(s: string): (v: int)
    ensures INT64_MIN <= v <= INT64_MAX
  {
    if s != [] && IsSpace(s[0]) then Atoll(s[1..])
    else if s != [] && s[0] == '-' then Clamp(-Number(s[1..][..Leading(s[1..])]))
    else if s != [] && s[0] == '+' then Clamp(Number(s[1..][..Leading(s[1..])]))
    else Clamp(Number(s[..Leading(s)]))
  }

  lemma AtollOfDigits(n: nat)
    ensures Atoll(Digits(n)) == Clamp(n)
  {
    var s := Digits(n);
    NumberOfDigits(n);
    assert IsDigit(s[0]);
    assert Leading(s) == |s| && s[..|s|] == s;
  }

  /** The first occurrence of a string replaced. */
  function Replace(inp: string, find: string, rep: string): string {
    var i := Find(inp, find, 0);
    if i < 0 then inp else inp[..i] + rep + inp[i + |find|..]
  }

  /** The string in a buffer, up to its NUL. */
  function Text(a: seq<char>): string
    requires '\0' in a
  {
    a[..FindChar(a, '\0', 0)]
  }

  /** src put behind what a buffer starts with. */
  method CopyChars(dst: array<char>, at: nat, src: string, ghost before: string)
    requires at + |src| <= dst.Length && |before| == at && dst[..at] == before
    modifies dst
    ensures dst[..at + |src|] == before + src
    ensures dst[at + |src|..] == old(dst[at + |src|..])
  {
    forall k | 0 <= k < |src| { dst[at + k] := src[k]; }
    assert forall k | 0 <= k < at :: dst[k] == before[k];
  }

  /** XMLParser::StringReplace, in a buffer that has room for the result. */
  method StringReplace(inp: array<char>, find: string, rep: string)
    requires '\0' in inp[..] && '\0' !in rep
    requires |Replace(Text(inp[..]), find, rep)| < MAX_STRING_LEN
    requires |Replace(Text(inp[..]), find, rep)| < inp.Length
    modifies inp
    ensures '\0' in inp[..] && Text(inp[..]) == Replace(old(Text(inp[..])), find, rep)
  {
    var s := Text(inp[..]);
    NoNul(inp[..]);
    var sptr := Find(s, find, 0);
    if sptr >= 0 {
      hide Text;
      var tmpstr := Joined(s[..sptr], rep, s[sptr + |find|..]);
      StrCpy(inp, Text(tmpstr[..]));
    }
  }

  lemma NoNul(a: seq<char>)
    requires '\0' in a
    ensures '\0' !in Text(a)
  {
  }

  /** strcpy. */
  method StrCpy(dst: array<char>, s: string)
    requires |s| < dst.Length && '\0' !in s
    modifies dst
    ensures '\0' in dst[..] && Text(dst[..]) == s
  {
    hide Text;
    CopyChars(dst, 0, s + ['\0'], []);
    assert [] + (s + ['\0']) == s + ['\0'];
    TextOf(dst[..], s);
  }

  /** Three parts put together in a new buffer. */
  method Joined(first: string, rep: string, rest: string) returns (tmpstr: array<char>)
    requires |first| + |rep| + |rest| < MAX_STRING_LEN
    requires '\0' !in first && '\0' !in rep && '\0' !in rest
    ensures fresh(tmpstr) && '\0' in tmpstr[..] && Text(tmpstr[..]) == first + rep + rest
  {
    hide Text;
    tmpstr := new char[MAX_STRING_LEN](_ => '\0');
    CopyChars(tmpstr, 0, first, []);
    assert [] + first == first;
    CopyChars(tmpstr, |first|, rep, first);
    CopyChars(tmpstr, |first + rep|, rest + ['\0'], first + rep);
    assert first + rep + (rest + ['\0']) == first + rep + rest + ['\0'];
    TextOf(tmpstr[..], first + rep + rest);
  }

  lemma TextOf(a: seq<char>, s: string)
    requires |s| < |a| && a[..|s| + 1] == s + ['\0'] && '\0' !in s
    ensures '\0' in a && Text(a) == s
  {
    assert a[|s|] == a[..|s| + 1][|s|];
    assert forall k | 0 <= k < |s| :: a[k] == a[..|s| + 1][k];
    assert FindChar(a, '\0', 0) == |s|;
    assert a[..|s|] == a[..|s| + 1][..|s|];
  }

  datatype Result = Ok(value: int) | Trap

  /** A division that traps instead of giving a result. */
  predicate Traps(a: int, b: int) { b == 0 || (a == INT64_MIN && b == -1) }

  /** Division as C has it, towards zero. */
  function Quotient(a: int, b: int): int
    requires b != 0
  {
    if (a >= 0) == (b > 0) then (if a >= 0 then a else -a) / (if b > 0 then b else -b)
    else -((if a >= 0 then a else -a) / (if b > 0 then b else -b))
  }

  /** A number in 64 bits without a sign. */
  function Wrap(x: int): int { x % U64 }

  /** What an operator gives. */
  function Calc(op: char, a: int, b: int): int
    requires op == '/' ==> b != 0
  {
    match op
    case '+' => Wrap(a + b)
    case '-' => Wrap(a - b)
    case '/' => Wrap(Quotient(a, b))
    case _ => Wrap(a * b)
  }

  /** The numbers before and behind the first c. */
  function Operands(e: string, c: char): (int, int)
    requires FindChar(e, c, 0) >= 0
  {
    var i := FindChar(e, c, 0);
    (Atoll(e[..i]), Atoll(e[i + 1..]))
  }

  predicate Has(e: string, c: char) { FindChar(e, c, 0) >= 0 }

  /** What an expression without a checksum means: of the operators that occur in it, one counts, first
      the sum, then the difference, the quotient, the product. */
  function Value(e: string): Result {
    if Has(e, '/') && Traps(Operands(e, '/').0, Operands(e, '/').1) then Trap
    else if Has(e, '+') then Ok(Calc('+', Operands(e, '+').0, Operands(e, '+').1))
    else if Has(e, '-') then Ok(Calc('-', Operands(e, '-').0, Operands(e, '-').1))
    else if Has(e, '/') then Ok(Calc('/', Operands(e, '/').0, Operands(e, '/').1))
    else if Has(e, '*') then Ok(Calc('*', Operands(e, '*').0, Operands(e, '*').1))
    else Ok(Wrap(Atoll(e)))
  }

  /** The steps of the evaluation, each operator that occurs putting its result over the last. */
  method Evaluate(e: string) returns (r: Result)
    ensures r == Value(e)
  {
    hide Atoll, Calc, FindChar, Traps;
    var value := Wrap(Atoll(e));
    var sptr := FindChar(e, '*', 0);
    if sptr >= 0 {
      var val1, val2 := Atoll(e[..sptr]), Atoll(e[sptr + 1..]);
      value := Calc('*', val1, val2);
    }
    sptr := FindChar(e, '/', 0);
    if sptr >= 0 {
      var val1, val2 := Atoll(e[..sptr]), Atoll(e[sptr + 1..]);
      TrapsIfZero(val1, val2);
      if Traps(val1, val2) { return Trap; }
      value := Calc('/', val1, val2);
    }
    sptr := FindChar(e, '-', 0);
    if sptr >= 0 {
      var val1, val2 := Atoll(e[..sptr]), Atoll(e[sptr + 1..]);
      value := Calc('-', val1, val2);
    }
    sptr := FindChar(e, '+', 0);
    if sptr >= 0 {
      var val1, val2 := Atoll(e[..sptr]), Atoll(e[sptr + 1..]);
      value := Calc('+', val1, val2);
    }
    r := Ok(value);
  }

  lemma TrapsIfZero(a: int, b: int)
    ensures !Traps(a, b) ==> b != 0
  {
  }

  /** Partition::ParseXMLEvaluate, for expressions without a checksum. */
  method ParseXMLEvaluate(expr: array<char>, d_sectors: nat) returns (r: Result)
    requires '\0' in expr[..]
    requires |Replace(Text(expr[..]), NUM_DISK_SECTORS, Digits(d_sectors))| < MAX_STRING_LEN
    requires |Replace(Text(expr[..]), NUM_DISK_SECTORS, Digits(d_sectors))| < expr.Length
    requires Find(Replace(Text(expr[..]), NUM_DISK_SECTORS, Digits(d_sectors)), "CRC32", 0) < 0
    modifies expr
    ensures r == Value(Replace(old(Text(expr[..])), NUM_DISK_SECTORS, Digits(d_sectors)))
  {
    StringReplace(expr, NUM_DISK_SECTORS, Digits(d_sectors));
    r := Evaluate(Text(expr[..]));
  }

  /** What Firehose prints for a start sector. */
  function Print(sector: int): string {
    if sector < 0 then NUM_DISK_SECTORS + (['-'] + Digits(-sector)) else Digits(sector)
  }

  /** What comes out for a start sector that is printed and then evaluated on a disk. */
  function Evaluated(sector: int, d_sectors: nat): Result {
    Value(Replace(Print(sector), NUM_DISK_SECTORS, Digits(d_sectors)))
  }

  lemma NotIn(c: char, s: string)
    requires forall i | 0 <= i < |s| :: s[i] != c
    ensures !Has(s, c)
  {
  }

  lemma ValueOfDigits(n: nat)
    requires n <= INT64_MAX
    ensures Value(Digits(n)) == Ok(n)
  {
    var s := Digits(n);
    AtollOfDigits(n);
    hide Digits, Atoll, Calc;
    NotIn('/', s); NotIn('+', s); NotIn('-', s); NotIn('*', s);
  }

  /** A sector that is not negative is printed and evaluated as it is, whatever the disk. */
  lemma PrintedFromStart(sector: int, d_sectors: nat)
    requires 0 <= sector <= INT64_MAX
    ensures Evaluated(sector, d_sectors) == Ok(sector)
  {
    NotFound(Digits(sector), NUM_DISK_SECTORS);
    ValueOfDigits(sector);
    hide Digits, Value;
  }

  lemma Replaced(sector: int, d_sectors: nat)
    requires sector < 0
    ensures Replace(Print(sector), NUM_DISK_SECTORS, Digits(d_sectors)) ==
            Binary(Digits(d_sectors), '-', Digits(-sector))
  {
    var rest := ['-'] + Digits(-sector);
    FoundAtStart(NUM_DISK_SECTORS, rest);
    hide Digits;
    assert (NUM_DISK_SECTORS + rest)[|NUM_DISK_SECTORS|..] == rest;
  }

  /** Two strings with an operator between them. */
  function Binary(l: string, m: char, r: string): string { l + [m] + r }

  predicate Without(s: string, c: char) { forall i | 0 <= i < |s| :: s[i] != c }

  lemma NeitherHas(l: string, m: char, r: string, c: char)
    requires Without(l, c) && m != c && Without(r, c)
    ensures !Has(Binary(l, m, r), c)
  {
    NotIn(c, l + [m] + r);
  }

  lemma OperandsOf(l: string, m: char, r: string)
    requires Without(l, m)
    ensures Has(Binary(l, m, r), m) && Operands(Binary(l, m, r), m) == (Atoll(l), Atoll(r))
  {
    var e := l + [m] + r;
    hide Atoll;
    assert m !in l;
    FoundChar(l, m, r);
    assert e[..|l|] == l && e[|l| + 1..] == r;
  }

  /** A string with a minus, and neither plus nor slash, is a difference. */
  lemma DifferenceOf(l: string, r: string)
    requires Without(l, '-') && Without(l, '+') && Without(l, '/') && Without(r, '+') && Without(r, '/')
    ensures Value(Binary(l, '-', r)) == Ok(Calc('-', Atoll(l), Atoll(r)))
  {
    OperandsOf(l, '-', r);
    NeitherHas(l, '-', r, '/');
    NeitherHas(l, '-', r, '+');
    hide Atoll, Calc, Traps, Has, Operands, Without, Binary;
  }

  lemma DigitsWithout(n: nat, c: char)
    requires !IsDigit(c)
    ensures Without(Digits(n), c)
  {
  }

  lemma Difference(a: nat, b: nat)
    ensures Value(Binary(Digits(a), '-', Digits(b))) == Ok(Calc('-', Clamp(a), Clamp(b)))
  {
    AtollOfDigits(a);
    AtollOfDigits(b);
    DigitsWithout(a, '-'); DigitsWithout(a, '+'); DigitsWithout(a, '/');
    DigitsWithout(b, '+'); DigitsWithout(b, '/');
    hide Digits, Atoll, Clamp, Value, Without, Calc, Binary;
    DifferenceOf(Digits(a), Digits(b));
  }

  lemma SameResidueIff(x: int, y: int)
    requires -U64 < x - y < U64
    ensures Wrap(x) == Wrap(y) <==> x == y
  {
    assert x == x / U64 * U64 + x % U64 && y == y / U64 * U64 + y % U64;
  }

  lemma ValueOfPrinted(sector: int, d_sectors: nat)
    requires INT64_MIN <= sector < 0
    ensures Evaluated(sector, d_sectors) == Ok(Wrap(Clamp(d_sectors) - Clamp(-sector)))
  {
    hide Value, Replace, Print, Digits, Clamp, Wrap;
    Replaced(sector, d_sectors);
    Difference(d_sectors, -sector);
  }

  lemma ClampedIff(sector: int, d_sectors: nat)
    requires INT64_MIN <= sector < 0 && d_sectors < U64
    ensures -U64 < (Clamp(d_sectors) - Clamp(-sector)) - (d_sectors + sector) < U64
    ensures Clamp(d_sectors) - Clamp(-sector) == d_sectors + sector <==>
            if sector > INT64_MIN then d_sectors <= INT64_MAX else d_sectors == INT64_MAX + 1
  {
  }

  lemma WrappedIff(sector: int, d_sectors: nat)
    requires INT64_MIN <= sector < 0 && d_sectors < U64
    ensures Wrap(Clamp(d_sectors) - Clamp(-sector)) == Wrap(d_sectors + sector) <==>
            if sector > INT64_MIN then d_sectors <= INT64_MAX else d_sectors == INT64_MAX + 1
  {
    ClampedIff(sector, d_sectors);
    SameResidueIff(Clamp(d_sectors) - Clamp(-sector), d_sectors + sector);
    hide *;
  }

  /** A negative sector comes out as that many sectors before the end of the disk, for all disks and
      sectors but the largest: atoll cuts what does not fit into 63 bits. */
  lemma PrintedFromEndIff(sector: int, d_sectors: nat)
    requires INT64_MIN <= sector < 0 && d_sectors < U64
    ensures Evaluated(sector, d_sectors) == Ok(Wrap(d_sectors + sector)) <==>
            if sector > INT64_MIN then d_sectors <= INT64_MAX else d_sectors == INT64_MAX + 1
  {
    hide *;
    ValueOfPrinted(sector, d_sectors);
    WrappedIff(sector, d_sectors);
  }

  /** Digits before something that is no digit are read as their number. */
  lemma AtollOfDigitsThen(n: nat, rest: string)
    requires rest != [] && !IsDigit(rest[0])
    ensures Atoll(Digits(n) + rest) == Clamp(n)
  {
    var d := Digits(n);
    var s := d + rest;
    NumberOfDigits(n);
    assert IsDigit(s[0]) && s[|d|] == rest[0] && forall i | 0 <= i < |d| :: s[i] == d[i];
    LeadingIs(s, |d|);
    assert s[..|d|] == d;
  }

  lemma {:induction false} LeadingIs(s: string, n: nat)
    requires n < |s| && !IsDigit(s[n]) && forall i | 0 <= i < n :: IsDigit(s[i])
    ensures Leading(s) == n
  {
    if n > 0 { LeadingIs(s[1..], n - 1); }
  }

  // ----- what operators give -----

  /** The operators, by what counts first. */
  function Rank(op: char): nat { if op == '+' then 3 else if op == '-' then 2 else if op == '/' then 1 else 0 }

  predicate IsOperator(op: char) { op == '+' || op == '-' || op == '*' || op == '/' }

  /** Arithmetic without a sign in 64 bits. */
  function Exact(op: char, x: nat, y: nat): int
    requires op == '/' ==> y > 0
  {
    match op
    case '+' => (x + y) % 0x1_0000_0000_0000_0000
    case '-' => (x - y) % 0x1_0000_0000_0000_0000
    case '/' => x / y
    case _ => (x * y) % 0x1_0000_0000_0000_0000
  }

  lemma CalcIsExact(op: char, x: nat, y: nat)
    requires x <= INT64_MAX && y <= INT64_MAX && (op == '/' ==> y > 0)
    ensures Calc(op, x, y) == Exact(op, x, y)
  {
    if op == '/' { QuotientBelow(x, y); }
  }

  lemma QuotientBelow(x: nat, y: nat)
    requires y > 0
    ensures Quotient(x, y) == x / y <= x
  {
    Arith.Quotient(x, y);
    MulMonotone(1, y, x / y);
  }

  lemma TrapsIffZero(x: nat, y: nat)
    ensures Traps(x, y) <==> y == 0
  {
  }

  lemma OnlyHas(l: string, m: char, r: string, c: char)
    requires Without(l, c) && Without(r, c)
    ensures Has(Binary(l, m, r), c) <==> c == m
  {
    if c != m { NeitherHas(l, m, r, c); } else { OperandsOf(l, m, r); }
  }

  /** A sum, difference, product or quotient of two printed numbers is that, in 64 bits; a division by 0
      traps. */
  lemma OneOperator(a: nat, m: char, b: nat)
    requires a <= INT64_MAX && b <= INT64_MAX && IsOperator(m)
    ensures Value(Binary(Digits(a), m, Digits(b))) == if m == '/' && b == 0 then Trap else Ok(Exact(m, a, b))
  {
    var l, r := Digits(a), Digits(b);
    AtollOfDigits(a);
    AtollOfDigits(b);
    forall c | !IsDigit(c) ensures Without(l, c) && Without(r, c) {
      DigitsWithout(a, c);
      DigitsWithout(b, c);
    }
    OperandsOf(l, m, r);
    OnlyHas(l, m, r, '+'); OnlyHas(l, m, r, '-'); OnlyHas(l, m, r, '*'); OnlyHas(l, m, r, '/');
    TrapsIffZero(a, b);
    if m != '/' || b > 0 { CalcIsExact(m, a, b); }
    hide Digits, Atoll, Calc, Exact, Without, Has, Operands, Traps, Binary;
  }

  /** So the four operators are what they are meant to be. */
  lemma Arithmetic(a: nat, b: nat)
    requires a <= INT64_MAX && b <= INT64_MAX
    ensures Value(Digits(a) + "+" + Digits(b)) == Ok((a + b) % 0x1_0000_0000_0000_0000)
    ensures Value(Digits(a) + "-" + Digits(b)) == Ok((a - b) % 0x1_0000_0000_0000_0000)
    ensures Value(Digits(a) + "*" + Digits(b)) == Ok((a * b) % 0x1_0000_0000_0000_0000)
    ensures Value(Digits(a) + "/" + Digits(b)) == if b == 0 then Trap else Ok(a / b)
  {
    OneOperator(a, '+', b);
    OneOperator(a, '-', b);
    OneOperator(a, '*', b);
    OneOperator(a, '/', b);
    hide Value, Digits;
  }

  /** Three numbers with two operators between them. */
  function Ternary(a: nat, m: char, b: nat, n: char, c: nat): string {
    Binary(Digits(a), m, Binary(Digits(b), n, Digits(c)))
  }

  lemma AtollOfMore(n: nat, m: char, rest: string)
    requires n <= INT64_MAX && !IsDigit(m)
    ensures Atoll(Binary(Digits(n), m, rest)) == n
  {
    AtollOfDigitsThen(n, [m] + rest);
    BinaryIs(Digits(n), m, rest);
    hide Digits, Atoll, Binary;
  }

  lemma BinaryIs(l: string, m: char, r: string)
    ensures Binary(l, m, r) == l + ([m] + r)
  {
  }

  /** The first operator takes the first two numbers. */
  lemma OperandsOfFirst(a: nat, m: char, b: nat, n: char, c: nat)
    requires a <= INT64_MAX && b <= INT64_MAX && !IsDigit(m) && !IsDigit(n)
    ensures var e := Ternary(a, m, b, n, c); Has(e, m) && Operands(e, m) == (a, b)
  {
    AtollOfDigits(a);
    AtollOfMore(b, n, Digits(c));
    DigitsWithout(a, m);
    hide Digits, Atoll, Without, Has, Operands, Binary;
    OperandsOf(Digits(a), m, Binary(Digits(b), n, Digits(c)));
  }

  /** The second takes the first and the last. */
  lemma OperandsOfSecond(a: nat, m: char, b: nat, n: char, c: nat)
    requires a <= INT64_MAX && c <= INT64_MAX && !IsDigit(m) && !IsDigit(n) && m != n
    ensures var e := Ternary(a, m, b, n, c); Has(e, n) && Operands(e, n) == (a, c)
  {
    AtollOfDigits(c);
    AtollOfMore(a, m, Digits(b));
    WithoutBoth(a, m, b, n);
    Regrouped(Digits(a), m, Digits(b), n, Digits(c));
    hide Digits, Atoll, Without, Has, Operands, Binary;
    OperandsOf(Binary(Digits(a), m, Digits(b)), n, Digits(c));
  }

  lemma WithoutBoth(a: nat, m: char, b: nat, c: char)
    requires !IsDigit(c) && m != c
    ensures Without(Binary(Digits(a), m, Digits(b)), c)
  {
    DigitsWithout(a, c);
    DigitsWithout(b, c);
  }

  lemma NoOther(a: nat, m: char, b: nat, n: char, c: nat, o: char)
    requires !IsDigit(o) && o != m && o != n
    ensures !Has(Ternary(a, m, b, n, c), o)
  {
    DigitsWithout(a, o);
    WithoutBoth(b, n, c, o);
    hide Digits, Without, Has;
    NeitherHas(Digits(a), m, Binary(Digits(b), n, Digits(c)), o);
  }

  lemma Regrouped(l: string, m: char, k: string, n: char, r: string)
    ensures Binary(l, m, Binary(k, n, r)) == Binary(Binary(l, m, k), n, r)
  {
  }

  lemma OperandsOfTernary(a: nat, m: char, b: nat, n: char, c: nat)
    requires a <= INT64_MAX && b <= INT64_MAX && c <= INT64_MAX && IsOperator(m) && IsOperator(n) && m != n
    ensures var e := Ternary(a, m, b, n, c);
            && Has(e, m) && Operands(e, m) == (a, b)
            && Has(e, n) && Operands(e, n) == (a, c)
            && forall o | IsOperator(o) :: Has(e, o) <==> o == m || o == n
  {
    OperandsOfFirst(a, m, b, n, c);
    OperandsOfSecond(a, m, b, n, c);
    hide Ternary, Has, Operands;
    forall o | IsOperator(o) && o != m && o != n ensures !Has(Ternary(a, m, b, n, c), o) {
      NoOther(a, m, b, n, c, o);
    }
  }

  /** Of two operators only the one that counts first counts, whichever comes first, and it takes the
      numbers before the first operator and right behind it; but a division by 0 traps either way. */
  lemma TwoOperators(a: nat, m: char, b: nat, n: char, c: nat)
    requires a <= INT64_MAX && b <= INT64_MAX && c <= INT64_MAX && IsOperator(m) && IsOperator(n) && m != n
    ensures Value(Ternary(a, m, b, n, c)) ==
            if (m == '/' && b == 0) || (n == '/' && c == 0) then Trap
            else if Rank(m) > Rank(n) then Ok(Exact(m, a, b))
            else Ok(Exact(n, a, c))
  {
    OperandsOfTernary(a, m, b, n, c);
    TrapsIffZero(a, b);
    TrapsIffZero(a, c);
    if m != '/' || b > 0 { CalcIsExact(m, a, b); }
    if n != '/' || c > 0 { CalcIsExact(n, a, c); }
    hide Ternary, Has, Operands, Traps, Calc, Exact, Atoll;
  }

  function Times(a: int, b: int): int { a * b }

  function Abs(a: int): nat { if a >= 0 then a else -a }

  /** Division as C has it: the rest has the sign of the dividend. */
  lemma QuotientIs(a: int, b: int)
    requires b != 0
    ensures a >= 0 ==> 0 <= a - Times(b, Quotient(a, b)) < Abs(b)
    ensures a < 0 ==> 0 <= Times(b, Quotient(a, b)) - a < Abs(b)
  {
    QuotientTimes(a, b);
    Remainder(Abs(a), Abs(b));
    hide Times, Quotient;
  }

  lemma QuotientTimes(a: int, b: int)
    requires b != 0
    ensures var m := Times(Abs(b), Abs(a) / Abs(b)); Times(b, Quotient(a, b)) == if a >= 0 then m else -m
  {
    SignedProducts(Abs(b), Abs(a) / Abs(b));
    assert Quotient(a, b) == if (a >= 0) == (b > 0) then Abs(a) / Abs(b) else -(Abs(a) / Abs(b));
    hide Times, Quotient;
  }

  lemma SignedProducts(y: int, q: int)
    ensures Times(-y, q) == -Times(y, q) && Times(y, -q) == -Times(y, q) && Times(-y, -q) == Times(y, q)
  {
  }

  lemma Remainder(x: nat, y: nat)
    requires y > 0
    ensures 0 <= x - Times(y, x / y) < y
  {
    assert x == y * (x / y) + x % y;
  }

  /** It traps exactly if there is no quotient, or none that fits. */
  lemma TrapsIff(a: int, b: int)
    requires INT64_MIN <= a <= INT64_MAX
    ensures Traps(a, b) <==> b == 0 || Quotient(a, b) > 0x7fff_ffff_ffff_ffff
  {
  }

  /** Numbers with a sign, behind any blanks and before anything that is no digit. */
  lemma AtollOfSigned(n: nat, rest: string)
    requires rest == [] || !IsDigit(rest[0])
    ensures Atoll(['-'] + (Digits(n) + rest)) == if n > 0x8000_0000_0000_0000 then -0x8000_0000_0000_0000 else 0 - n
    ensures Atoll(['+'] + (Digits(n) + rest)) == if n > 0x7fff_ffff_ffff_ffff then 0x7fff_ffff_ffff_ffff else n
  {
    var t := Digits(n) + rest;
    NumberLeads(n, rest);
    assert (['-'] + t)[1..] == t && (['+'] + t)[1..] == t;
    hide Digits, Leading, Number;
  }

  lemma NumberLeads(n: nat, rest: string)
    requires rest == [] || !IsDigit(rest[0])
    ensures var t := Digits(n) + rest; Number(t[..Leading(t)]) == n
  {
    var d, t := Digits(n), Digits(n) + rest;
    NumberOfDigits(n);
    assert t[..|d|] == d && forall i | 0 <= i < |d| :: t[i] == d[i];
    if rest == [] {
      assert Leading(t) == |d|;
    } else {
      assert t[|d|] == rest[0];
      LeadingIs(t, |d|);
    }
  }

  lemma AtollOfBlank(c: char, s: string)
    requires c == ' ' || c == '\t' || c == '\n' || c == '\r' || c as int == 11 || c as int == 12
    ensures Atoll([c] + s) == Atoll(s)
  {
    assert ([c] + s)[1..] == s;
  }

  /** a*-b and -a*b, printed. */
  function SecondSigned(a: nat, b: nat): string { Binary(Digits(a) + ['*'], '-', Digits(b)) }
  function FirstSigned(a: nat, b: nat): string { Binary([], '-', Digits(a) + (['*'] + Digits(b))) }

  lemma WithoutJoin(s: string, t: string, c: char)
    requires Without(s, c) && Without(t, c)
    ensures Without(s + t, c)
  {
  }

  lemma CalcOfClamped(a: int, b: int)
    requires 0 <= a <= INT64_MAX && 0 <= b <= INT64_MAX
    ensures Calc('-', Clamp(a), Clamp(b)) == Wrap(a - b) && Clamp(0) == 0
    ensures a == 0 ==> Wrap(a - b) == Wrap(-b)
  {
  }

  lemma AtollOfNothing()
    ensures Atoll([]) == Clamp(0)
  {
    assert Leading([]) == 0 && Number([]) == 0;
  }

  /** The sign of a second factor is taken for the operator: what comes out is the difference. */
  lemma SecondSign(a: int, b: int)
    requires 0 <= a <= INT64_MAX && 0 <= b <= INT64_MAX
    ensures Value(SecondSigned(a, b)) == Ok(Wrap(a - b))
  {
    AtollOfDigits(b);
    AtollOfDigitsThen(a, ['*']);
    CalcOfClamped(a, b);
    DigitsWithout(a, '-'); DigitsWithout(a, '+'); DigitsWithout(a, '/');
    DigitsWithout(b, '+'); DigitsWithout(b, '/');
    WithoutJoin(Digits(a), ['*'], '-'); WithoutJoin(Digits(a), ['*'], '+'); WithoutJoin(Digits(a), ['*'], '/');
    hide Digits, Atoll, Clamp, Value, Calc, Without, Binary;
    DifferenceOf(Digits(a) + ['*'], Digits(b));
  }

  /** So is the sign of a first factor, and the second factor does not count. */
  lemma FirstSign(a: int, b: int)
    requires 0 <= a <= INT64_MAX && 0 <= b <= INT64_MAX
    ensures Value(FirstSigned(a, b)) == Ok(Wrap(-a))
  {
    var r := Digits(a) + (['*'] + Digits(b));
    AtollOfDigitsThen(a, ['*'] + Digits(b));
    CalcOfClamped(0, a);
    DigitsWithout(a, '+'); DigitsWithout(a, '/'); DigitsWithout(b, '+'); DigitsWithout(b, '/');
    WithoutJoin(['*'], Digits(b), '+'); WithoutJoin(['*'], Digits(b), '/');
    WithoutJoin(Digits(a), ['*'] + Digits(b), '+'); WithoutJoin(Digits(a), ['*'] + Digits(b), '/');
    assert Without([], '-') && Without([], '+') && Without([], '/');
    AtollOfNothing();
    hide Digits, Atoll, Clamp, Value, Calc, Without, Binary;
    DifferenceOf([], r);
  }

  /** A product with a sign that fits comes out right only of 0 and 0 if the sign is the second's, and
      only if the first factor is 0 or the second is 1 if it is the first's. */
  lemma ProductWithSignIff(a: int, b: int, p: int)
    requires 0 <= a <= INT64_MAX && 0 <= b <= INT64_MAX && p == a * b <= INT64_MAX
    ensures Value(SecondSigned(a, b)) == Ok(Wrap(-p)) <==> a == 0 && b == 0
    ensures Value(FirstSigned(a, b)) == Ok(Wrap(-p)) <==> a == 0 || b == 1
  {
    hide *;
    FactorsIff(a, b, p);
    WithSignIff(a, b, p);
  }

  lemma WithSignIff(a: int, b: int, p: int)
    requires 0 <= a <= INT64_MAX && 0 <= b <= INT64_MAX && 0 <= p <= INT64_MAX
    requires (a - b == -p <==> a == 0 && b == 0) && (a == p <==> a == 0 || b == 1)
    ensures Value(SecondSigned(a, b)) == Ok(Wrap(-p)) <==> a == 0 && b == 0
    ensures Value(FirstSigned(a, b)) == Ok(Wrap(-p)) <==> a == 0 || b == 1
  {
    SecondSign(a, b);
    FirstSign(a, b);
    SameProductIff(a, b, p);
    hide *;
  }

  lemma SameProductIff(a: int, b: int, p: int)
    requires 0 <= a <= INT64_MAX && 0 <= b <= INT64_MAX && 0 <= p <= INT64_MAX
    ensures Wrap(a - b) == Wrap(-p) <==> a - b == -p
    ensures Wrap(-a) == Wrap(-p) <==> a == p
  {
    SameResidueIff(a - b, -p);
    SameResidueIff(-a, -p);
  }

  lemma FactorsIff(a: nat, b: nat, p: int)
    requires p == a * b
    ensures p >= 0 && (a - b == -p <==> a == 0 && b == 0)
    ensures a == p <==> a == 0 || b == 1
  {
    if a > 0 {
      MulMonotone(1, a, b);
      if b > 1 { MulMonotone(2, b, a); }
    }
  }
}
