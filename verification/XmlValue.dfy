/** Setting and reading an attribute's value in a line of XML, in place. */
module XmlValue {
  import opened CString

  const QUOTE: char := '\"'

  datatype Option<T> = None | Some(value: T)

  /** Where the value of the first key stands: behind quote .open up to quote .close. */
  datatype Span = Span(open: nat, close: nat)

  function ValueSpan(line: string, key: string): (r: Option<Span>)
    ensures r.Some? ==> r.value.open < r.value.close < |line| && line[r.value.open] == line[r.value.close] == QUOTE
    ensures r.Some? ==> forall j | r.value.open < j < r.value.close :: line[j] != QUOTE
  {
    var i := Find(line, key, 0);
    if i < 0 then None
    else
      var q := FindChar(line, QUOTE, i);
      if q < 0 then None
      else
        var e := FindChar(line, QUOTE, q + 1);
        if e < 0 then None else Some(Span(q, e))
  }

  function Spaces(n: nat): (s: string)
    ensures |s| == n && forall i | 0 <= i < n :: s[i] == ' '
  {
    if n == 0 then [] else [' '] + Spaces(n - 1)
  }

  /** The line with its value replaced: a shorter value is closed early and padded with blanks over
      the old closing quote, a longer one is cut. */
  function WithValue(line: string, key: string, value: string): (r: string)
    ensures |r| == |line|
  {
    match ValueSpan(line, key)
    case None => line
    case Some(Span(q, e)) =>
      var room := e - q - 1;
      if |value| < room then
        line[..q + 1] + value + [QUOTE] + Spaces(room - |value|) + line[e + 1..]
      else
        line[..q + 1] + value[..room] + line[e..]
  }

  /** A line that agrees character by character with the replaced one. */
  lemma Replaced(now: string, line: string, key: string, value: string, q: nat, e: nat, n: nat)
    requires ValueSpan(line, key) == Some(Span(q, e)) && |now| == |line|
    requires n == if |value| < e - q - 1 then |value| else e - q - 1
    requires forall k | 0 <= k < |line| && (k <= q || k > e) :: now[k] == line[k]
    requires forall k | 0 <= k < n :: now[q + 1 + k] == value[k]
    requires now[q + 1 + n] == QUOTE
    requires forall k | q + 1 + n < k <= e :: now[k] == ' '
    ensures now == WithValue(line, key, value)
  {
    var r := WithValue(line, key, value);
    forall k | 0 <= k < |line| ensures now[k] == r[k] {
      if q < k <= q + n { assert now[q + 1 + (k - q - 1)] == value[k - q - 1]; }
    }
  }

  /** XMLParser::StringSetValue. A value that is opened has to be closed. */
  method StringSetValue(key: array<char>, keyName: string, value: string)
    requires Find(key[..], keyName, 0) >= 0 && FindChar(key[..], QUOTE, Find(key[..], keyName, 0)) >= 0 ==>
               ValueSpan(key[..], keyName).Some?
    modifies key
    ensures key[..] == WithValue(old(key[..]), keyName, value)
  {
    ghost var line := key[..];
    var i := Find(key[..], keyName, 0);
    if i < 0 { return; }
    var sptr := FindChar(key[..], QUOTE, i);
    if sptr < 0 { return; }
    ghost var q, e := sptr, ValueSpan(line, keyName).value.close;
    hide *;
    sptr := sptr + 1;
    var n := 0;
    while true
      invariant q + 1 <= sptr <= e < key.Length && n == sptr - q - 1 && n <= |value|
      invariant forall k | 0 <= k < key.Length && !(q < k < sptr) :: key[k] == line[k]
      invariant forall k | 0 <= k < n :: key[q + 1 + k] == value[k]
      decreases e - sptr
    {
      if key[sptr] == QUOTE {
        break;
      }
      if n == |value| {
        Blank(key, sptr, e);
        break;
      }
      key[sptr] := value[n];
      sptr := sptr + 1;
      n := n + 1;
    }
    Replaced(key[..], line, keyName, value, q, e, n);
  }

  /** A value that is shorter than the old one is closed, and blanks follow up to where that was closed. */
  method Blank(key: array<char>, from: nat, ghost e: nat)
    requires from < e < key.Length && key[e] == QUOTE && forall k | from < k < e :: key[k] != QUOTE
    modifies key
    ensures key[from] == QUOTE && forall k | from < k <= e :: key[k] == ' '
    ensures forall k | 0 <= k < key.Length && !(from <= k <= e) :: key[k] == old(key[k])
  {
    var sptr := from;
    key[sptr] := QUOTE;
    sptr := sptr + 1;
    while key[sptr] != QUOTE
      invariant from < sptr <= e && key[from] == QUOTE
      invariant forall k | 0 <= k < key.Length && !(from <= k < sptr) :: key[k] == old(key[k])
      invariant forall k | from < k < sptr :: key[k] == ' '
      decreases e - sptr
    {
      key[sptr] := ' ';
      sptr := sptr + 1;
    }
    key[sptr] := ' ';
  }

  datatype Error = InvalidData
  datatype Result<T> = Ok(value: T) | Err(error: Error)

  /** What reading a value gives: the characters between the quotes, or an error. */
  function ValueOf(line: string, key: string): (r: Result<string>)
    ensures r.Ok? ==> QUOTE !in r.value
  {
    match ValueSpan(line, key)
    case None => Err(InvalidData)
    case Some(Span(q, e)) => Ok(line[q + 1..e])
  }

  /** XMLParser::ParseXMLString: the value and a closing NUL are put at the front of the buffer,
      which is as long as the line. On an error it stays as it was. */
  method ParseXMLString(line: string, key: string, value: array<char>) returns (status: Result<()>)
    requires value.Length >= |line|
    modifies value
    ensures status.Ok? <==> ValueOf(line, key).Ok?
    ensures status.Ok? ==>
              exists n :: 0 <= n < value.Length && value[n] == '\0' && value[..n] == ValueOf(line, key).value
                          && value[n + 1..] == old(value[n + 1..])
    ensures status.Err? ==> value[..] == old(value[..])
  {
    var sptr := Find(line, key, 0);
    if sptr < 0 { return Err(InvalidData); }
    sptr := FindChar(line, QUOTE, sptr);
    if sptr < 0 { return Err(InvalidData); }
    sptr := sptr + 1;
    var eptr := FindChar(line, QUOTE, sptr);
    if eptr < 0 { return Err(InvalidData); }
    forall k | 0 <= k < eptr - sptr {
      value[k] := line[sptr + k];
    }
    value[eptr - sptr] := '\0';
    assert value[..eptr - sptr] == line[sptr..eptr];
    return Ok(());
  }

  predicate QuoteFree(s: string) { QUOTE !in s }

  /** Without quotes, a key stands wholly before the quote that opens its value. */
  lemma KeyBeforeQuote(line: string, key: string)
    requires QuoteFree(key) && ValueSpan(line, key).Some?
    ensures Find(line, key, 0) + |key| <= ValueSpan(line, key).value.open
  {
    var i := Find(line, key, 0);
    StandsChars(line, key, i);
    var q := ValueSpan(line, key).value.open;
    assert line[i + (q - i)] == QUOTE;
  }

  /** Lines that agree up to and with the opening quote have their value opened at the same place. */
  lemma SameOpening(line: string, now: string, key: string, q: nat)
    requires QuoteFree(key) && ValueSpan(line, key).Some? && q == ValueSpan(line, key).value.open
    requires |now| == |line| && now[..q + 1] == line[..q + 1]
    ensures Find(now, key, 0) == Find(line, key, 0) >= 0
    ensures FindChar(now, QUOTE, Find(line, key, 0)) == FindChar(line, QUOTE, Find(line, key, 0)) == q
  {
    KeyBeforeQuote(line, key);
    FoundInPrefix(line, now, key, q + 1);
    FoundCharInPrefix(line, now, QUOTE, Find(line, key, 0), q + 1);
  }

  /** Reading a line that keeps the opening quote and closes the value at c. */
  lemma ReadsUpTo(line: string, now: string, key: string, q: nat, c: nat)
    requires QuoteFree(key) && ValueSpan(line, key).Some? && q == ValueSpan(line, key).value.open
    requires |now| == |line| && now[..q + 1] == line[..q + 1]
    requires FindChar(now, QUOTE, q + 1) == c
    ensures ValueOf(now, key) == Ok(now[q + 1..c])
  {
    SameOpening(line, now, key, q);
  }

  /** A value closed before the lines differ is read the same. */
  lemma ReadsSame(line: string, now: string, key: string, n: nat)
    requires QuoteFree(key) && ValueSpan(line, key).Some? && ValueSpan(line, key).value.close < n
    requires |now| == |line| && n <= |line| && now[..n] == line[..n]
    ensures ValueOf(now, key) == ValueOf(line, key)
  {
    var Span(q, e) := ValueSpan(line, key).value;
    assert FindChar(line, QUOTE, q + 1) == e;
    hide Find, FindChar, ValueSpan;
    FoundCharInPrefix(line, now, QUOTE, q + 1, n);
    SamePieces(line, now, n, q, e);
    ReadsUpTo(line, now, key, q, e);
  }

  lemma SamePieces(line: string, now: string, n: nat, q: nat, e: nat)
    requires |now| == |line| && q < e < n <= |line| && now[..n] == line[..n]
    ensures now[..q + 1] == line[..q + 1] && now[q + 1..e] == line[q + 1..e]
  {
    SamePart(line, now, n, 0, q + 1);
    SamePart(line, now, n, q + 1, e);
  }

  /** The replaced line around the new value. */
  lemma Layout(line: string, key: string, value: string, q: nat, e: nat, kept: string)
    requires ValueSpan(line, key) == Some(Span(q, e))
    requires kept == Cut(value, e - q - 1)
    ensures var now := WithValue(line, key, value);
            && now[..q + 1] == line[..q + 1] && now[e + 1..] == line[e + 1..]
            && now[q + 1..q + 1 + |kept|] == kept && now[q + 1 + |kept|] == QUOTE
  {
    hide ValueSpan, Spaces;
  }

  lemma ClosedAt(now: string, q: nat, kept: string)
    requires QUOTE !in kept && q + 1 + |kept| < |now| && now[q + 1..q + 1 + |kept|] == kept
    requires now[q + 1 + |kept|] == QUOTE
    ensures FindChar(now, QUOTE, q + 1) == q + 1 + |kept|
  {
    assert forall k | q + 1 <= k < q + 1 + |kept| :: now[k] == now[q + 1..q + 1 + |kept|][k - q - 1];
    var r := FindChar(now, QUOTE, q + 1);
  }

  lemma ReadsKept(line: string, now: string, key: string, q: nat, kept: string)
    requires QuoteFree(key) && ValueSpan(line, key).Some? && q == ValueSpan(line, key).value.open
    requires |now| == |line| && now[..q + 1] == line[..q + 1]
    requires QUOTE !in kept && q + 1 + |kept| < |now| && now[q + 1..q + 1 + |kept|] == kept
    requires now[q + 1 + |kept|] == QUOTE
    ensures ValueOf(now, key) == Ok(kept)
  {
    ClosedAt(now, q, kept);
    ReadsUpTo(line, now, key, q, q + 1 + |kept|);
  }

  /** What of a value fits into the room between two quotes. */
  function Cut(value: string, room: nat): string {
    if |value| < room then value else value[..room]
  }

  /** Setting a value and reading it gives the value, cut to the length of the old one, for every key
      and value without quotes; and nothing outside the old value and its closing quote is changed. */
  lemma SetThenGet(line: string, key: string, value: string, q: nat, e: nat)
    requires QuoteFree(key) && QuoteFree(value) && ValueSpan(line, key) == Some(Span(q, e))
    ensures ValueOf(WithValue(line, key, value), key) == Ok(Cut(value, e - q - 1))
    ensures |WithValue(line, key, value)| == |line|
    ensures WithValue(line, key, value)[..q + 1] == line[..q + 1]
    ensures WithValue(line, key, value)[e + 1..] == line[e + 1..]
  {
    var kept := Cut(value, e - q - 1);
    Layout(line, key, value, q, e, kept);
    ReadsKept(line, WithValue(line, key, value), key, q, kept);
  }

  /** Without the key, or without an opening quote behind it, setting changes nothing and reading fails. */
  lemma NoValue(line: string, key: string, value: string)
    requires ValueSpan(line, key).None?
    ensures WithValue(line, key, value) == line && ValueOf(line, key) == Err(InvalidData)
  {
  }

  /** A second key's value, standing wholly before the first's, reads as it did. */
  lemma OthersKeep(line: string, key: string, other: string, value: string)
    requires QuoteFree(other) && ValueSpan(line, key).Some? && ValueSpan(line, other).Some?
    requires ValueSpan(line, other).value.close <= ValueSpan(line, key).value.open
    ensures ValueOf(WithValue(line, key, value), other) == ValueOf(line, other)
  {
    var Span(p, f) := ValueSpan(line, key).value;
    Layout(line, key, value, p, f, Cut(value, f - p - 1));
    ReadsSame(line, WithValue(line, key, value), other, p + 1);
  }

  /** A key that stands behind the first's value reads as it did, if the new value does not bring it in
      further ahead; it then stands where it stood. */
  lemma OthersBehindKeep(line: string, key: string, other: string, value: string, q: nat, e: nat)
    requires ValueSpan(line, key) == Some(Span(q, e)) && ValueSpan(line, other).Some? && Find(line, other, 0) > e
    ensures var now := WithValue(line, key, value);
            && 0 <= Find(now, other, 0) <= Find(line, other, 0)
            && (Find(now, other, 0) == Find(line, other, 0) <==> Find(now, other, 0) > e)
            && (Find(now, other, 0) > e ==> ValueOf(now, other) == ValueOf(line, other))
  {
    SameBehindValue(line, key, value, q, e);
    hide *;
    ReadsBehind(line, WithValue(line, key, value), other, e + 1);
  }

  lemma ReadsBehind(line: string, now: string, key: string, n: nat)
    requires SameBehind(line, now, n) && ValueSpan(line, key).Some? && Find(line, key, 0) >= n
    ensures 0 <= Find(now, key, 0) <= Find(line, key, 0)
    ensures Find(now, key, 0) == Find(line, key, 0) <==> Find(now, key, 0) >= n
    ensures Find(now, key, 0) >= n ==> ValueOf(now, key) == ValueOf(line, key)
  {
    hide *;
    FindBehind(line, now, key, n);
    if Find(now, key, 0) >= n { ReadBehind(line, now, key, n); }
  }

  lemma SameBehindValue(line: string, key: string, value: string, q: nat, e: nat)
    requires ValueSpan(line, key) == Some(Span(q, e))
    ensures SameBehind(line, WithValue(line, key, value), e + 1)
  {
    Layout(line, key, value, q, e, Cut(value, e - q - 1));
    hide WithValue, ValueSpan, Cut;
  }

  lemma ReadBehind(line: string, now: string, key: string, n: nat)
    requires SameBehind(line, now, n) && ValueSpan(line, key).Some?
    requires Find(now, key, 0) == Find(line, key, 0) >= n
    ensures ValueOf(now, key) == ValueOf(line, key)
  {
    var Span(q, e) := ValueSpan(line, key).value;
    var i := Find(line, key, 0);
    assert FindChar(line, QUOTE, i) == q;
    hide Find, FindChar, ValueSpan, SameBehind;
    SpanBehind(line, now, key, n, i, q);
    PartBehind(line, now, n, q + 1, e);
  }

  lemma SpanBehind(line: string, now: string, key: string, n: nat, i: int, q: int)
    requires SameBehind(line, now, n) && ValueSpan(line, key).Some?
    requires n <= i == Find(line, key, 0) == Find(now, key, 0) && q == FindChar(line, QUOTE, i)
    ensures ValueSpan(now, key) == ValueSpan(line, key) && ValueSpan(line, key).value.open >= n
  {
    hide Find, FindChar, SameBehind;
    FindCharBehind(line, now, QUOTE, i, n);
    FindCharBehind(line, now, QUOTE, q + 1, n);
  }
}
