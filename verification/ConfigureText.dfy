/** The text of a configure packet, and what reading its attributes gives. */
module ConfigureText {
  import opened CString
  import opened FirehoseRead
  import StartSector
  import XmlValue

  const QUOTE: char := '\"'

  datatype Config = Config(memoryName: string, zlpAwareHost: bool, skipStorageInit: bool, skipWrite: bool,
                           ackEvery: int)

  function ByteOf(c: char): byte { c as int % 256 }

  function Bytes(s: string): (b: seq<byte>)
    ensures |b| == |s|
    ensures forall i | 0 <= i < |s| :: b[i] == ByteOf(s[i])
  {
    seq(|s|, i requires 0 <= i < |s| => ByteOf(s[i]))
  }

  /** printf's %i. */
  function Decimal(x: int): string {
    if x < 0 then "-" + StartSector.Digits(-x) else StartSector.Digits(x)
  }

  /** What printf's %i makes of a 32-bit number without a sign. */
  function Printed(size: nat): string { Decimal(if size < 0x8000_0000 then size else size - 0x1_0000_0000) }

  function Flag(b: bool): string { if b then "1" else "0" }

  datatype Attribute = Attribute(key: string, value: string) {
    function Text(): string { " " + key + "=\"" + value + "\"" }
  }

  function Joined(list: seq<Attribute>): string {
    if list == [] then "" else list[0].Text() + Joined(list[1..])
  }

  function Attributes(cfg: Config, size: nat): (list: seq<Attribute>)
    ensures |list| == 6
  {
    [Attribute("MemoryName", cfg.memoryName),
     Attribute("ZLPAwareHost", Flag(cfg.zlpAwareHost)),
     Attribute("SkipStorageInit", Flag(cfg.skipStorageInit)),
     Attribute("SkipWrite", Flag(cfg.skipWrite)),
     Attribute("MaxPayloadSizeToTargetInBytes", Printed(size)),
     Attribute("AckRawDataEveryNumPackets", Decimal(cfg.ackEvery))]
  }

  function Head(): string { "<?xml version = \"1.0\" ?><data><configure" }

  function Tail(): string { "/></data>" }

  function PacketText(cfg: Config, size: nat): string { Head() + Joined(Attributes(cfg, size)) + Tail() }

  /** The packet that offers a packet size. */
  function ConfigurePacket(cfg: Config, size: nat): seq<byte> { Bytes(PacketText(cfg, size)) }

  // ----- reading it -----

  /** Bytes as the characters they stand for. */
  function Chars(b: seq<byte>): (s: string)
    ensures |s| == |b|
    ensures forall i | 0 <= i < |b| :: s[i] == CharOf(b[i])
  {
    seq(|b|, i requires 0 <= i < |b| => CharOf(b[i]))
  }

  function CharOf(b: byte): char { b as char }

  lemma CharOfByte(c: char)
    requires c < 256 as char
    ensures CharOf(ByteOf(c)) == c
  {
  }

  predicate Latin(s: string) { forall i | 0 <= i < |s| :: s[i] < 256 as char }

  lemma CharsOfBytes(s: string)
    requires Latin(s)
    ensures Chars(Bytes(s)) == s
  {
    hide ByteOf, CharOf, Chars, Bytes;
    forall i | 0 <= i < |s| ensures Chars(Bytes(s))[i] == s[i] { CharOfByte(s[i]); }
  }

  /** What a printed number means. */
  function Meant(s: string): int {
    if s != [] && s[0] == '-' then -StartSector.Number(s[1..]) else StartSector.Number(s)
  }

  lemma DecimalMeans(x: int)
    ensures Meant(Decimal(x)) == x
  {
    StartSector.NumberOfDigits(if x < 0 then -x else x);
    assert x < 0 ==> Decimal(x)[1..] == StartSector.Digits(-x);
    assert x >= 0 ==> Decimal(x)[0] != '-';
  }

  /** The characters of numbers and flags. */
  predicate Plain(s: string) { forall i | 0 <= i < |s| :: s[i] == '-' || StartSector.IsDigit(s[i]) }

  lemma ValuesArePlain(cfg: Config, size: nat)
    ensures forall i | 0 < i < 6 :: Plain(Attributes(cfg, size)[i].value)
  {
  }

  lemma {:induction false} JoinedSplit(list: seq<Attribute>, i: nat)
    requires i <= |list|
    ensures Joined(list) == Joined(list[..i]) + Joined(list[i..])
  {
    if i == 0 {
      assert list[..0] == [] && list[0..] == list;
    } else {
      JoinedSplit(list[1..], i - 1);
      assert list[..i][1..] == list[1..][..i - 1] && list[1..][i - 1..] == list[i..];
      hide Attribute.Text;
      Assoc(list[0].Text(), Joined(list[1..][..i - 1]), Joined(list[i..]));
    }
  }

  /** A character that stands in no key and no value, and not between them. */
  predicate Free(list: seq<Attribute>, c: char) {
    && c != ' ' && c != '=' && c != QUOTE
    && forall i | 0 <= i < |list| :: c !in list[i].key && c !in list[i].value
  }

  lemma {:induction false} JoinedFree(list: seq<Attribute>, c: char)
    requires Free(list, c)
    ensures c !in Joined(list)
  {
    if list != [] { JoinedFree(list[1..], c); }
  }

  lemma CharAt(text: string, c: char, from: nat, at: nat)
    requires from <= at < |text| && text[at] == c && forall k | from <= k < at :: text[k] != c
    ensures FindChar(text, c, from) == at
  {
    hide FindChar;
    var i := FindChar(text, c, from);
    assert text[at] == c;
  }

  predicate Holds(text: string, pre: string, a: Attribute) { pre + a.Text() <= text }

  /** Where the parts of an attribute stand in a text. */
  lemma PartsOf(text: string, pre: string, a: Attribute, p: nat, v: nat)
    requires Holds(text, pre, a) && p == |pre| + 1 && v == p + |a.key| + 2
    ensures v + |a.value| < |text| && text[p + |a.key|] == '=' && text[v - 1] == text[v + |a.value|] == QUOTE
    ensures text[p..p + |a.key|] == a.key && text[v..v + |a.value|] == a.value
  {
    var t := pre + a.Text();
    assert t == text[..|t|];
    assert t[p..p + |a.key|] == a.key && t[v..v + |a.value|] == a.value;
  }

  lemma KeyStands(text: string, pre: string, a: Attribute, p: nat)
    requires Holds(text, pre, a) && p == |pre| + 1
    ensures StandsAt(text, a.key, p)
  {
    PartsOf(text, pre, a, p, p + |a.key| + 2);
  }

  lemma FoundWithin(s: string, pat: string)
    ensures Find(s, pat, 0) <= |s|
  {
  }

  /** The value of the first place where a key stands. */
  lemma ReadsAt(text: string, pre: string, a: Attribute, p: nat)
    requires Holds(text, pre, a) && QUOTE !in a.key && QUOTE !in a.value
    requires Find(text, a.key, 0) == p == |pre| + 1
    ensures XmlValue.ValueOf(text, a.key) == XmlValue.Ok(a.value)
  {
    var v := p + |a.key| + 2;
    hide *;
    KeyToQuote(text, pre, a, p, v);
    ValueToQuote(text, pre, a, p, v);
    ReadsBetween(text, a.key, p, v, v + |a.value|);
  }

  lemma KeyToQuote(text: string, pre: string, a: Attribute, p: nat, v: nat)
    requires Holds(text, pre, a) && QUOTE !in a.key && p == |pre| + 1 && v == p + |a.key| + 2
    ensures FindChar(text, QUOTE, p) == v - 1
  {
    PartsOf(text, pre, a, p, v);
    NoQuote(text, p, a.key);
    hide Holds;
    CharAt(text, QUOTE, p, v - 1);
  }

  lemma ValueToQuote(text: string, pre: string, a: Attribute, p: nat, v: nat)
    requires Holds(text, pre, a) && QUOTE !in a.value && p == |pre| + 1 && v == p + |a.key| + 2
    ensures FindChar(text, QUOTE, v) == v + |a.value| < |text| && text[v..v + |a.value|] == a.value
  {
    PartsOf(text, pre, a, p, v);
    NoQuote(text, v, a.value);
    hide Holds;
    CharAt(text, QUOTE, v, v + |a.value|);
  }

  lemma ReadsBetween(text: string, key: string, i: nat, v: nat, e: nat)
    requires Find(text, key, 0) == i && FindChar(text, QUOTE, i) + 1 == v > 0 && FindChar(text, QUOTE, v) == e
    ensures XmlValue.ValueOf(text, key) == XmlValue.Ok(text[v..e])
  {
    hide Find, FindChar;
  }

  /** The three parts of what stands before an attribute. */
  lemma PartsBefore(text: string, head: string, name: string, more: string)
    requires head + name + more <= text
    ensures text[..|head|] == head && text[|head|..|head| + |name|] == name
    ensures text[|head| + |name|..|head| + |name| + |more|] == more
  {
    var t := head + name + more;
    assert t == text[..|t|];
    assert t[..|head|] == head && t[|head|..|head| + |name|] == name && t[|head| + |name|..] == more;
  }

  /** head, the first value and more stand before an attribute whose key has a character of its own. */
  predicate Ahead(text: string, head: string, name: string, more: string, key: string, o: nat) {
    && head + name + more <= text && |head| > 0 && |more| > 1 && o < |key|
    && head[|head| - 1] == QUOTE == more[0] && more[|more| - 1] == ' '
    && key[o] !in head && key[o] !in more && QUOTE !in key && ' ' !in key
  }

  /** A key with a character of its own stands nowhere before its attribute but in the first value. */
  lemma NotBefore(text: string, head: string, name: string, more: string, key: string, o: nat, j: nat)
    requires Ahead(text, head, name, more, key, o) && StandsAt(text, key, j) && j < |head| + |name| + |more|
    ensures StandsAt(name, key, j - |head|)
  {
    var h, n, m := |head|, |head| + |name|, |head| + |name| + |more|;
    PartsBefore(text, head, name, more);
    KeyChar(text, key, j, o);
    hide StandsAt;
    assert text[h - 1] == text[..h][h - 1] == QUOTE;
    assert text[n] == text[n..m][0] == QUOTE && text[m - 1] == text[n..m][m - 1 - n] == ' ';
    NotOver(text, key, ' ', j, m - 1);
    NotOver(text, key, QUOTE, j, n);
    NotOver(text, key, QUOTE, j, h - 1);
    Outside(text, 0, h, head, key[o], j + o);
    Outside(text, n, m, more, key[o], j + o);
    StandsInPart(text, h, n, key, j);
  }

  lemma KeyChar(text: string, key: string, j: nat, o: nat)
    requires StandsAt(text, key, j) && o < |key|
    ensures j + |key| <= |text| && text[j + o] == key[o]
  {
    StandsChars(text, key, j);
  }

  /** A key does not stand over a character that it has not. */
  lemma NotOver(text: string, key: string, c: char, j: nat, p: nat)
    requires StandsAt(text, key, j) && c !in key && p < |text| && text[p] == c
    ensures p < j || p >= j + |key|
  {
    StandsChars(text, key, j);
    assert forall k | j <= k < j + |key| :: text[k] == key[k - j];
  }

  /** A character stands outside of a part that has it not. */
  lemma Outside(text: string, a: nat, b: nat, part: string, c: char, p: nat)
    requires a <= b <= |text| && text[a..b] == part && c !in part && p < |text| && text[p] == c
    ensures p < a || p >= b
  {
    assert forall k | a <= k < b :: text[k] == part[k - a];
  }

  lemma StandsInPart(text: string, a: nat, b: nat, key: string, j: nat)
    requires StandsAt(text, key, j) && a <= j && j + |key| <= b <= |text|
    ensures StandsAt(text[a..b], key, j - a)
  {
    StandsChars(text, key, j);
    var part := text[a..b];
    forall k | 0 <= k < |key| ensures part[j - a + k] == key[k] {
      assert text[j + k] == key[k];
    }
    assert part[j - a..j - a + |key|] == key;
  }

  /** What stands in the name stands in the text. */
  lemma StandsWithin(text: string, head: string, name: string, more: string, key: string, o: nat, j: nat)
    requires Ahead(text, head, name, more, key, o) && StandsAt(name, key, j)
    ensures StandsAt(text, key, |head| + j)
  {
    PartsBefore(text, head, name, more);
    var h := |head|;
    assert text[h..h + |name|][j..j + |key|] == text[h + j..h + j + |key|];
  }

  /** So it is found in the name, if it stands there, or else where its attribute is. */
  lemma FirstPlace(text: string, head: string, name: string, more: string, key: string, o: nat, at: nat)
    requires Ahead(text, head, name, more, key, o) && at == |head| + |name| + |more| && StandsAt(text, key, at)
    ensures var i := Find(name, key, 0); Find(text, key, 0) == if i < 0 then at else |head| + i
  {
    var i, j := Find(name, key, 0), Find(text, key, 0);
    hide *;
    if i >= 0 { StandsWithin(text, head, name, more, key, o, i); }
    if 0 <= j < at { NotBefore(text, head, name, more, key, o, j); }
  }

  predicate Follows(text: string, head: string, name: string, next: string) {
    head + name + ("\"" + next + "\"") <= text
  }

  /** A key found in the name is read as what stands between the name and the next value. */
  lemma ReadsPastName(text: string, head: string, name: string, next: string, key: string, f: nat)
    requires Follows(text, head, name, next) && QUOTE !in name && QUOTE !in next
    requires |head| <= f == Find(text, key, 0) && f <= |head| + |name|
    ensures XmlValue.ValueOf(text, key) == XmlValue.Ok(next)
  {
    var n, v := |head| + |name|, |head| + |name| + 1;
    PartsBefore(text, head, name, "\"" + next + "\"");
    Quoted(text, n, next);
    NoQuote(text, |head|, name);
    NoQuote(text, v, next);
    hide *;
    CharAt(text, QUOTE, f, n);
    CharAt(text, QUOTE, v, v + |next|);
    ReadsBetween(text, key, f, v, v + |next|);
  }

  lemma NoQuote(text: string, at: nat, part: string)
    requires at + |part| <= |text| && text[at..at + |part|] == part && QUOTE !in part
    ensures forall k | at <= k < at + |part| :: text[k] != QUOTE
  {
    forall k | at <= k < at + |part| ensures text[k] != QUOTE { assert text[k] == text[at..at + |part|][k - at]; }
  }

  lemma Quoted(text: string, n: nat, next: string)
    requires n + |next| + 2 <= |text| && text[n..n + |next| + 2] == "\"" + next + "\""
    ensures text[n] == text[n + 1 + |next|] == QUOTE && text[n + 1..n + 1 + |next|] == next
  {
    var t := text[n..n + |next| + 2];
    assert text[n] == t[0] && text[n + 1 + |next|] == t[|next| + 1];
    forall k | 0 <= k < |next| ensures text[n + 1 + k] == next[k] { assert text[n + 1 + k] == t[1 + k]; }
  }

  /** The packet's attributes behind the name, up to the i-th. */
  function More(list: seq<Attribute>, i: nat): string
    requires 0 < i <= |list|
  {
    "\"" + Joined(list[1..i]) + " "
  }

  function NameHead(): string { Head() + " MemoryName=\"" }

  /** The text up to and with an attribute, and what follows. */
  lemma TextSplit(cfg: Config, size: nat, i: nat)
    requires i < 6
    ensures var list := Attributes(cfg, size);
            Holds(PacketText(cfg, size), Head() + Joined(list[..i]), list[i])
  {
    var list := Attributes(cfg, size);
    var a, t, r := Joined(list[..i]), list[i].Text(), Joined(list[i + 1..]);
    JoinedSplit(list, i);
    assert list[i..][0] == list[i] && list[i..][1..] == list[i + 1..];
    assert Joined(list[i..]) == t + r;
    hide Joined, Attribute.Text, Attributes;
    Assemble(Head(), a, t, r, Tail());
  }

  lemma Assemble(h: string, a: string, t: string, r: string, z: string)
    ensures h + a + t <= h + (a + (t + r)) + z
  {
    assert h + (a + (t + r)) + z == (h + a + t) + (r + z);
  }

  /** The attributes up to one begin with the name's. */
  lemma NameFirst(cfg: Config, size: nat, i: nat)
    requires 0 < i <= 6
    ensures var list := Attributes(cfg, size);
            && Head() + Joined(list[..i]) + " " == NameHead() + cfg.memoryName + More(list, i)
            && |Head() + Joined(list[..i])| + 1 == |NameHead()| + |cfg.memoryName| + |More(list, i)|
  {
    var list := Attributes(cfg, size);
    var name, r := cfg.memoryName, Joined(list[1..i]);
    assert list[..i][0] == list[0] && list[..i][1..] == list[1..i];
    assert Joined(list[..i]) == list[0].Text() + r;
    assert list[0].Text() == " MemoryName=\"" + name + "\"";
    hide Joined, Attribute.Text, Attributes;
    Regroup(Head(), " MemoryName=\"", name, "\"", r, " ");
    assert |Head() + Joined(list[..i])| + 1 == |Head() + Joined(list[..i]) + " "|;
  }

  lemma Regroup(h: string, k: string, n: string, q: string, r: string, z: string)
    ensures h + ((k + n + q) + r) + z == (h + k) + n + (q + r + z)
  {
  }

  /** What stands before the i-th attribute of a packet. */
  lemma AheadOf(cfg: Config, size: nat, i: nat, o: nat)
    requires 0 < i < 6
    requires var list := Attributes(cfg, size);
             o < |list[i].key| && Free(list[1..i], list[i].key[o]) && list[i].key[o] !in NameHead()
             && QUOTE !in list[i].key && ' ' !in list[i].key
    ensures var text, list := PacketText(cfg, size), Attributes(cfg, size);
            Ahead(text, NameHead(), cfg.memoryName, More(list, i), list[i].key, o)
  {
    var list := Attributes(cfg, size);
    TextSplit(cfg, size, i);
    NameFirst(cfg, size, i);
    JoinedFree(list[1..i], list[i].key[o]);
    hide Joined, Attributes, PacketText;
    var pre := Head() + Joined(list[..i]);
    assert pre + " " <= pre + list[i].Text();
  }

  /** What stands between the memory name and the next value. */
  function Next(): (next: string)
    ensures QUOTE !in next
  {
    " ZLPAwareHost="
  }

  lemma NextStands(cfg: Config, size: nat)
    ensures Follows(PacketText(cfg, size), NameHead(), cfg.memoryName, Next())
  {
    var list := Attributes(cfg, size);
    TextSplit(cfg, size, 1);
    NameFirst(cfg, size, 1);
    var pre, name, flag := Head() + Joined(list[..1]), cfg.memoryName, Flag(cfg.zlpAwareHost);
    assert More(list, 1) == "\"" + " ";
    assert list[1].Text() == Next() + "\"" + flag + "\"";
    hide Joined, Attributes, PacketText, Attribute.Text, More;
    assert pre + list[1].Text() == NameHead() + name + ("\"" + Next() + "\"") + (flag + "\"") by {
      assert pre + " " == NameHead() + name + "\"" + " ";
      assert pre == (pre + " ")[..|pre|] == NameHead() + name + "\"";
    }
  }

  lemma Reads(text: string, pre: string, head: string, name: string, more: string, a: Attribute, o: nat,
              next: string)
    requires Holds(text, pre, a) && Ahead(text, head, name, more, a.key, o) && Follows(text, head, name, next)
    requires |pre| + 1 == |head| + |name| + |more|
    requires QUOTE !in name && QUOTE !in next && QUOTE !in a.key && QUOTE !in a.value
    ensures XmlValue.ValueOf(text, a.key) == XmlValue.Ok(if Find(name, a.key, 0) < 0 then a.value else next)
  {
    var j, p := Find(name, a.key, 0), |pre| + 1;
    hide *;
    KeyStands(text, pre, a, p);
    FirstPlace(text, head, name, more, a.key, o, p);
    FoundWithin(name, a.key);
    if j < 0 { ReadsAt(text, pre, a, p); } else { ReadsPastName(text, head, name, next, a.key, |head| + j); }
  }

  /** Reading an attribute gives its value, unless the memory name holds its key. */
  lemma AttributeSays(cfg: Config, size: nat, i: nat, o: nat, key: string, value: string)
    requires 0 < i < 6 && Attributes(cfg, size)[i] == Attribute(key, value)
    requires o < |key| && Free(Attributes(cfg, size)[1..i], key[o]) && key[o] !in NameHead() && QUOTE !in key
    requires ' ' !in key
    requires QUOTE !in cfg.memoryName && QUOTE !in value
    ensures XmlValue.ValueOf(PacketText(cfg, size), key) ==
            XmlValue.Ok(if Find(cfg.memoryName, key, 0) < 0 then value else Next())
  {
    var list := Attributes(cfg, size);
    TextSplit(cfg, size, i);
    NameFirst(cfg, size, i);
    AheadOf(cfg, size, i, o);
    NextStands(cfg, size);
    hide *;
    Reads(PacketText(cfg, size), Head() + Joined(list[..i]), NameHead(), cfg.memoryName, More(list, i), list[i], o,
          Next());
  }

  lemma NameSays(cfg: Config, size: nat)
    requires QUOTE !in cfg.memoryName
    ensures XmlValue.ValueOf(PacketText(cfg, size), "MemoryName") == XmlValue.Ok(cfg.memoryName)
  {
    var text, a := PacketText(cfg, size), Attribute("MemoryName", cfg.memoryName);
    var list := Attributes(cfg, size);
    TextSplit(cfg, size, 0);
    assert list[0] == a && list[..0] == [] && Head() + Joined(list[..0]) == Head();
    hide Attributes, Joined, PacketText;
    NameReads(text, a);
  }

  function VersionHead(): string { "<?xml version = \"" }

  function VersionMore(): string { "\" ?><data><configure " }

  lemma NameReads(text: string, a: Attribute)
    requires Holds(text, Head(), a) && a.key == "MemoryName" && QUOTE !in a.value
    ensures XmlValue.ValueOf(text, a.key) == XmlValue.Ok(a.value)
  {
    KeyStands(text, Head(), a, |Head()| + 1);
    NameAhead(text, a);
    NotInVersion(a.key);
    hide *;
    FirstPlace(text, VersionHead(), "1.0", VersionMore(), a.key, 0, |Head()| + 1);
    ReadsAt(text, Head(), a, |Head()| + 1);
  }

  lemma NotInVersion(key: string)
    requires |key| > 3
    ensures Find("1.0", key, 0) == -1
  {
  }

  lemma VersionParts()
    ensures Head() + " " == VersionHead() + "1.0" + VersionMore()
    ensures |VersionHead()| == 17 && VersionHead()[16] == QUOTE && |VersionMore()| == 21
    ensures VersionMore()[0] == QUOTE && VersionMore()[20] == ' '
  {
  }

  lemma VersionLacks()
    ensures 'M' !in VersionHead() && 'M' !in VersionMore()
  {
  }

  lemma SpaceFirst(text: string, pre: string, a: Attribute)
    requires Holds(text, pre, a)
    ensures pre + " " <= text
  {
    assert pre + a.Text() == (pre + " ") + (a.key + "=\"" + a.value + "\"");
  }

  lemma NameAhead(text: string, a: Attribute)
    requires Holds(text, Head(), a) && a.key == "MemoryName"
    ensures Ahead(text, VersionHead(), "1.0", VersionMore(), a.key, 0)
    ensures |Head()| + 1 == |VersionHead()| + |"1.0"| + |VersionMore()|
  {
    VersionParts();
    VersionLacks();
    SpaceFirst(text, Head(), a);
    assert |Head() + " "| == |Head()| + 1;
    hide Head, VersionHead, VersionMore, Holds;
  }

  /** The keys, in order. */
  function Key(i: nat): string
    requires i < 6
  {
    match i
    case 0 => "MemoryName"
    case 1 => "ZLPAwareHost"
    case 2 => "SkipStorageInit"
    case 3 => "SkipWrite"
    case 4 => "MaxPayloadSizeToTargetInBytes"
    case _ => "AckRawDataEveryNumPackets"
  }

  lemma KeysAre(cfg: Config, size: nat)
    ensures forall i | 0 <= i < 6 :: Attributes(cfg, size)[i].key == Key(i)
  {
    hide Printed, Decimal;
  }

  /** A character of a key that no key before it has, nor what stands before the memory name. */
  predicate Owns(i: nat, o: nat)
    requires i < 6
  {
    && o < |Key(i)| && QUOTE !in Key(i) && ' ' !in Key(i)
    && Lettered(Key(i)[o]) && Key(i)[o] !in NameHead() && forall k | 0 < k < i :: Key(i)[o] !in Key(k)
  }

  predicate Lettered(c: char) { c != '-' && !StartSector.IsDigit(c) && c != ' ' && c != '=' && c != QUOTE }

  /** The characters that tell the keys apart. */
  predicate Mark(c: char) { c == 'Z' || c == 'S' || c == 'W' || c == 'B' || c == 'R' }

  predicate OnlyMarks(s: string, c: char, d: char) { forall i | 0 <= i < |s| :: Mark(s[i]) ==> s[i] == c || s[i] == d }

  predicate NoMarks(s: string) { forall i | 0 <= i < |s| :: !Mark(s[i]) }

  predicate Clean(s: string) { forall i | 0 <= i < |s| :: s[i] != QUOTE && s[i] != ' ' && s[i] < 256 as char }

  lemma HeadMarks()
    ensures NoMarks(NameHead())
  {
    assert NoMarks(Head());
    assert NoMarks(" MemoryName=\"");
    hide Head;
  }

  lemma NameClean()
    ensures Clean(Key(0))
  {
  }

  lemma HostMarks()
    ensures OnlyMarks(Key(1), 'Z', 'Z') && Clean(Key(1)) && |Key(1)| > 0 && Key(1)[0] == 'Z'
  {
  }

  lemma InitMarks()
    ensures OnlyMarks(Key(2), 'S', 'S') && Clean(Key(2)) && |Key(2)| > 0 && Key(2)[0] == 'S'
  {
  }

  lemma SkipMarks()
    ensures OnlyMarks(Key(3), 'S', 'W') && Clean(Key(3)) && |Key(3)| > 4 && Key(3)[4] == 'W'
  {
  }

  lemma SizeMarks()
    ensures OnlyMarks(Key(4), 'S', 'B') && Clean(Key(4)) && |Key(4)| > 24 && Key(4)[24] == 'B'
  {
  }

  lemma AckMarks()
    ensures Clean(Key(5)) && |Key(5)| > 3 && Key(5)[3] == 'R'
  {
  }

  /** Where each key has a character of its own. */
  function Own(i: nat): nat { if i <= 2 then 0 else if i == 3 then 4 else if i == 4 then 24 else 3 }

  lemma AllOwn(i: nat)
    requires 0 < i < 6
    ensures Owns(i, Own(i))
  {
    HeadMarks();
    HostMarks();
    InitMarks();
    SkipMarks();
    SizeMarks();
    AckMarks();
    hide Key, NameHead;
  }

  lemma PlainLacks(s: string, c: char)
    requires Plain(s) && c != '-' && !StartSector.IsDigit(c)
    ensures c !in s
  {
  }

  /** Reading the i-th attribute. */
  lemma Says(cfg: Config, size: nat, i: nat)
    requires 0 < i < 6 && QUOTE !in cfg.memoryName
    ensures XmlValue.ValueOf(PacketText(cfg, size), Key(i)) ==
            XmlValue.Ok(if Find(cfg.memoryName, Key(i), 0) < 0 then Attributes(cfg, size)[i].value else Next())
  {
    var list, o := Attributes(cfg, size), Own(i);
    AllOwn(i);
    KeysAre(cfg, size);
    ValuesArePlain(cfg, size);
    hide Attributes, PacketText, Key, Own, NameHead, Next, Plain;
    forall k | 0 < k <= i ensures Key(i)[o] !in list[k].value && QUOTE !in list[k].value {
      PlainLacks(list[k].value, Key(i)[o]);
      PlainLacks(list[k].value, QUOTE);
    }
    AttributeSays(cfg, size, i, o, Key(i), list[i].value);
  }

  lemma {:induction false} JoinedLatin(list: seq<Attribute>)
    requires forall i | 0 <= i < |list| :: Latin(list[i].key) && Latin(list[i].value)
    ensures Latin(Joined(list))
  {
    if list != [] { JoinedLatin(list[1..]); }
  }

  lemma KeysLatin()
    ensures forall i | 0 <= i < 6 :: Latin(Key(i))
  {
    NameClean();
    HostMarks();
    InitMarks();
    SkipMarks();
    SizeMarks();
    AckMarks();
    hide Key;
  }

  lemma EndsLatin()
    ensures Latin(Head()) && Latin(Tail())
  {
  }

  lemma PacketLatin(cfg: Config, size: nat)
    requires Latin(cfg.memoryName)
    ensures Latin(PacketText(cfg, size))
  {
    var list := Attributes(cfg, size);
    KeysAre(cfg, size);
    KeysLatin();
    EndsLatin();
    ValuesArePlain(cfg, size);
    assert list[0].value == cfg.memoryName;
    hide Attributes, Joined, Key, Head, Tail;
    JoinedLatin(list);
  }

  /** What a device reads in a configure packet: each attribute is what it was configured to be, unless
      the memory name holds the attribute's key; a size is read as a number with a sign. */
  lemma PacketSays(cfg: Config, size: nat)
    requires QUOTE !in cfg.memoryName && Latin(cfg.memoryName)
    ensures var line, name := Chars(ConfigurePacket(cfg, size)), cfg.memoryName;
            && XmlValue.ValueOf(line, "MemoryName") == XmlValue.Ok(name)
            && (Find(name, "ZLPAwareHost", 0) < 0 ==>
                  XmlValue.ValueOf(line, "ZLPAwareHost") == XmlValue.Ok(if cfg.zlpAwareHost then "1" else "0"))
            && (Find(name, "SkipStorageInit", 0) < 0 ==>
                  XmlValue.ValueOf(line, "SkipStorageInit") == XmlValue.Ok(if cfg.skipStorageInit then "1" else "0"))
            && (Find(name, "SkipWrite", 0) < 0 ==>
                  XmlValue.ValueOf(line, "SkipWrite") == XmlValue.Ok(if cfg.skipWrite then "1" else "0"))
  {
    PacketLatin(cfg, size);
    CharsOfBytes(PacketText(cfg, size));
    NameSays(cfg, size);
    assert Attributes(cfg, size)[1].value == Flag(cfg.zlpAwareHost);
    assert Attributes(cfg, size)[2].value == Flag(cfg.skipStorageInit);
    assert Attributes(cfg, size)[3].value == Flag(cfg.skipWrite);
    hide PacketText, Attributes, Bytes, Chars, Next;
    Says(cfg, size, 1);
    Says(cfg, size, 2);
    Says(cfg, size, 3);
  }

  /** The packet size. */
  lemma SizeMeans(cfg: Config, size: nat)
    requires QUOTE !in cfg.memoryName && Latin(cfg.memoryName)
    ensures var key := "MaxPayloadSizeToTargetInBytes";
            Find(cfg.memoryName, key, 0) < 0 ==>
              var v := XmlValue.ValueOf(Chars(ConfigurePacket(cfg, size)), key);
              v.Ok? && Meant(v.value) == if size < 0x8000_0000 then size else size - 0x1_0000_0000
  {
    PacketLatin(cfg, size);
    CharsOfBytes(PacketText(cfg, size));
    DecimalMeans(if size < 0x8000_0000 then size else size - 0x1_0000_0000);
    assert Attributes(cfg, size)[4].value == Printed(size) && Key(4) == "MaxPayloadSizeToTargetInBytes";
    hide Key, PacketText, Attributes, Bytes, Chars, Next, Decimal, Meant;
    Says(cfg, size, 4);
  }

  /** How often raw data are acknowledged. */
  lemma AckMeans(cfg: Config, size: nat)
    requires QUOTE !in cfg.memoryName && Latin(cfg.memoryName)
    ensures var key := "AckRawDataEveryNumPackets";
            Find(cfg.memoryName, key, 0) < 0 ==>
              var v := XmlValue.ValueOf(Chars(ConfigurePacket(cfg, size)), key);
              v.Ok? && Meant(v.value) == cfg.ackEvery
  {
    PacketLatin(cfg, size);
    CharsOfBytes(PacketText(cfg, size));
    DecimalMeans(cfg.ackEvery);
    assert Attributes(cfg, size)[5].value == Decimal(cfg.ackEvery) && Key(5) == "AckRawDataEveryNumPackets";
    hide Key, PacketText, Attributes, Bytes, Chars, Next, Decimal, Meant;
    Says(cfg, size, 5);
  }

  /** A key that the memory name holds is read as what stands behind the name. */
  lemma NameHidesIff(cfg: Config, size: nat, i: nat)
    requires QUOTE !in cfg.memoryName && Latin(cfg.memoryName) && 0 < i < 6
    ensures Find(cfg.memoryName, Key(i), 0) >= 0 <==>
            XmlValue.ValueOf(Chars(ConfigurePacket(cfg, size)), Key(i)) == XmlValue.Ok(" ZLPAwareHost=")
  {
    PacketLatin(cfg, size);
    CharsOfBytes(PacketText(cfg, size));
    ValuesArePlain(cfg, size);
    assert !Plain(Next()) by { assert Next()[0] == ' '; }
    hide PacketText, Attributes, Bytes, Chars, Plain, Key;
    Says(cfg, size, i);
  }

  /** A packet begins with "<?xml" and ends as the answers do, with "</data>". */
  lemma PacketEnds(cfg: Config, size: nat)
    ensures var b := ConfigurePacket(cfg, size);
            && |b| >= 7 && b[..5] == [0x3c, 0x3f, 0x78, 0x6d, 0x6c]
            && b[|b| - 7..] == [0x3c, 0x2f, 0x64, 0x61, 0x74, 0x61, 0x3e] == END_OF_XML
  {
    var text, n := PacketText(cfg, size), |PacketText(cfg, size)|;
    var first, last := "<?xml", "</data>";
    assert forall k | 0 <= k < 5 :: Head()[k] == first[k];
    assert forall k | 0 <= k < 7 :: Tail()[k + 2] == last[k];
    assert text[..5] == Head()[..5] == first && text[n - 7..] == Tail()[2..] == last;
    hide PacketText, Head, Tail;
    FirstBytes();
    LastBytes();
    BytesOfPart(text, 0, first);
    BytesOfPart(text, n - 7, last);
  }

  lemma FirstBytes()
    ensures Bytes("<?xml") == [0x3c, 0x3f, 0x78, 0x6d, 0x6c]
  {
  }

  lemma LastBytes()
    ensures Bytes("</data>") == [0x3c, 0x2f, 0x64, 0x61, 0x74, 0x61, 0x3e]
  {
  }

  lemma BytesOfPart(s: string, at: nat, part: string)
    requires at + |part| <= |s| && s[at..at + |part|] == part
    ensures Bytes(s)[at..at + |part|] == Bytes(part)
  {
    hide ByteOf, Bytes;
    forall k | 0 <= k < |part| ensures Bytes(s)[at + k] == Bytes(part)[k] {
      assert s[at + k] == s[at..at + |part|][k];
    }
  }
}
