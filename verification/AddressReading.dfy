/** What a printed address says: which of the texts section 2.2 of RFC 4291 reads back to the
    address, and why no two addresses share a text. */
module AddressReading {
  import opened Bytes
  import opened SocketAddresses
  import opened StreamReading
  import opened SeparatedText
  import opened ZeroRuns
  import opened AddressText
  import Digits

  // ---------- Section 2.2 of RFC 4291 ----------

  /** One group: one to four hexadecimal digits. */
  predicate IsGroup(t: string) {
    1 <= |t| <= 4 && Digits.AllDigits(t, 16)
  }

  predicate Groups(tokens: seq<string>) {
    forall i | 0 <= i < |tokens| :: IsGroup(tokens[i])
  }

  function Values(groups: seq<string>): seq<nat>
    requires Groups(groups)
  {
    seq(|groups|, i requires 0 <= i < |groups| => Digits.Read(groups[i], 16))
  }

  function Zeros(n: nat): seq<nat> {
    seq(n, _ => 0)
  }

  function Listed(groups: seq<string>): string {
    if groups == [] then "" else Join(groups, ':')
  }

  /** Form 1: eight groups between colons. */
  predicate FullForm(groups: seq<string>, text: string, h: seq<nat>) {
    |groups| == 8 && Groups(groups) && text == Join(groups, ':') && h == Values(groups)
  }

  /** Form 2: one "::" stands for one or more groups of zeros, at any place. */
  predicate CompressedForm(left: seq<string>, right: seq<string>, text: string, h: seq<nat>) {
    && Groups(left) && Groups(right) && |left| + |right| <= 7
    && text == Listed(left) + "::" + Listed(right)
    && h == Values(left) + Zeros(8 - |left| - |right|) + Values(right)
  }

  ghost predicate Denotes(text: string, h: seq<nat>) {
    || (exists groups :: FullForm(groups, text, h))
    || (exists left, right :: CompressedForm(left, right, text, h))
  }

  // ---------- Groups and tokens ----------

  lemma GroupHasNoColon(t: string)
    requires IsGroup(t)
    ensures t != "" && ':' !in t
  {
    assert Digits.Value(':') == -1;
  }

  lemma HexIsGroup(n: nat)
    requires n < 0x1_0000
    ensures IsGroup(Hex(n)) && Digits.Read(Hex(n), 16) == n
  {
    Digits.HexLength(n);
    Digits.PrintReadsBack(n, 16);
  }

  lemma HexAllReadsBack(h: seq<nat>)
    requires forall i | 0 <= i < |h| :: h[i] < 0x1_0000
    ensures Groups(HexAll(h)) && Values(HexAll(h)) == h
  {
    forall i | 0 <= i < |h| ensures IsGroup(HexAll(h)[i]) && Digits.Read(HexAll(h)[i], 16) == h[i] {
      HexIsGroup(h[i]);
    }
  }

  predicate NoneEmpty(tokens: seq<string>) {
    forall i | 0 <= i < |tokens| :: tokens[i] != ""
  }

  lemma GroupsArePlain(tokens: seq<string>)
    requires Groups(tokens)
    ensures Plain(tokens, ':') && NoneEmpty(tokens)
  {
    forall i | 0 <= i < |tokens| ensures ':' !in tokens[i] && tokens[i] != "" {
      GroupHasNoColon(tokens[i]);
    }
  }

  lemma TokensArePlain(h: Hextets)
    ensures Plain(Tokens(h), ':')
  {
    var (start, length) := Longest(h);
    if length == 0 {
      HexAllReadsBack(h);
      GroupsArePlain(HexAll(h));
    } else if length < 8 {
      HexAllReadsBack(h[..start]);
      GroupsArePlain(HexAll(h[..start]));
      HexAllReadsBack(h[start + length..]);
      GroupsArePlain(HexAll(h[start + length..]));
    }
  }

  /** The one empty token marks the place. */
  lemma OneEmptyToken(a: seq<string>, b: seq<string>, l: seq<string>, r: seq<string>)
    requires NoneEmpty(a) && NoneEmpty(b)
    requires a + [""] + b == l + [""] + r
    ensures a == l && b == r
  {
    var all := a + [""] + b;
    assert all[|l|] == (l + [""] + r)[|l|] == "";
    assert a == all[..|a|] == (l + [""] + r)[..|l|] == l;
    assert b == all[|a| + 1..] == (l + [""] + r)[|l| + 1..] == r;
  }

  /** The compressed run, put back. */
  lemma Expanded(h: Hextets)
    requires Longest(h).1 > 0
    ensures var (start, length) := Longest(h);
            h == h[..start] + Zeros(length) + h[start + length..]
  {
    RunAtIsMaximal(h, Longest(h).0, 0);
  }

  // ---------- Injectivity ----------

  /** Which tokens are empty: none, all three, or exactly the one at the start of the run. */
  lemma EmptyTokens(h: Hextets)
    ensures var (start, length) := Longest(h);
            if length == 0 then NoneEmpty(Tokens(h))
            else if length == 8 then Tokens(h) == ["", "", ""]
            else forall i | 0 <= i < |Tokens(h)| :: Tokens(h)[i] == "" <==> i == start
  {
    var (start, length) := Longest(h);
    if length == 0 {
      HexAllReadsBack(h);
      GroupsArePlain(HexAll(h));
    } else if length < 8 {
      HexAllReadsBack(h[..start]);
      GroupsArePlain(HexAll(h[..start]));
      HexAllReadsBack(h[start + length..]);
      GroupsArePlain(HexAll(h[start + length..]));
    }
  }

  lemma HexAllIsInjective(a: seq<nat>, b: seq<nat>)
    requires forall i | 0 <= i < |a| :: a[i] < 0x1_0000
    requires forall i | 0 <= i < |b| :: b[i] < 0x1_0000
    requires HexAll(a) == HexAll(b)
    ensures a == b
  {
    HexAllReadsBack(a);
    HexAllReadsBack(b);
  }

  predicate PartlyZero(h: Hextets) {
    0 < Longest(h).1 < 8
  }

  function Before(h: Hextets): seq<nat>
    requires PartlyZero(h)
  {
    h[..Longest(h).0]
  }

  function After(h: Hextets): seq<nat>
    requires PartlyZero(h)
  {
    h[Longest(h).0 + Longest(h).1..]
  }

  lemma PartsOf(h: Hextets)
    requires PartlyZero(h)
    ensures Tokens(h) == HexAll(Before(h)) + [""] + HexAll(After(h))
    ensures h == Before(h) + Zeros(8 - |Before(h)| - |After(h)|) + After(h)
  {
    Expanded(h);
  }

  lemma PartsAreGroups(h: Hextets)
    requires PartlyZero(h)
    ensures Groups(HexAll(Before(h))) && Values(HexAll(Before(h))) == Before(h)
    ensures Groups(HexAll(After(h))) && Values(HexAll(After(h))) == After(h)
    ensures NoneEmpty(HexAll(Before(h))) && NoneEmpty(HexAll(After(h)))
  {
    HexAllReadsBack(Before(h));
    GroupsArePlain(HexAll(Before(h)));
    HexAllReadsBack(After(h));
    GroupsArePlain(HexAll(After(h)));
  }

  lemma SameParts(g: Hextets, h: Hextets)
    requires PartlyZero(g) && PartlyZero(h) && Tokens(g) == Tokens(h)
    ensures HexAll(Before(g)) == HexAll(Before(h)) && HexAll(After(g)) == HexAll(After(h))
  {
    PartsOf(g);
    PartsOf(h);
    PartsAreGroups(g);
    OneEmptyToken(HexAll(Before(g)), HexAll(After(g)), HexAll(Before(h)), HexAll(After(h)));
  }

  lemma PartsAreInjective(g: Hextets, h: Hextets)
    requires PartlyZero(g) && PartlyZero(h) && Tokens(g) == Tokens(h)
    ensures g == h
  {
    SameParts(g, h);
    PartsAreGroups(g);
    PartsAreGroups(h);
    assert Before(g) == Before(h) && After(g) == After(h);
    PartsOf(g);
    PartsOf(h);
  }

  lemma OnlyZerosHaveThreeEmpty(g: Hextets, h: Hextets)
    requires Longest(g).1 == 8 && Tokens(g) == Tokens(h)
    ensures Longest(h).1 == 8
  {
    EmptyTokens(h);
    assert Tokens(g)[0] == "" && Tokens(g)[1] == "";
  }

  lemma OnlyRunsHaveEmpty(g: Hextets, h: Hextets)
    requires PartlyZero(g) && Tokens(g) == Tokens(h)
    ensures Longest(h).1 > 0
  {
    EmptyTokens(h);
    assert Tokens(g)[Longest(g).0] == "";
  }

  lemma TokensAreInjective(g: Hextets, h: Hextets)
    requires Tokens(g) == Tokens(h)
    ensures g == h
  {
    if Longest(g).1 == 8 {
      OnlyZerosHaveThreeEmpty(g, h);
      Expanded(g);
      Expanded(h);
    } else if Longest(h).1 == 8 {
      OnlyZerosHaveThreeEmpty(h, g);
    } else if PartlyZero(g) {
      OnlyRunsHaveEmpty(g, h);
      PartsAreInjective(g, h);
    } else if PartlyZero(h) {
      OnlyRunsHaveEmpty(h, g);
    } else {
      HexAllIsInjective(g, h);
    }
  }

  lemma Text6IsInjective(g: Hextets, h: Hextets)
    requires Text6(g) == Text6(h)
    ensures g == h
  {
    TokensArePlain(g);
    TokensArePlain(h);
    JoinIsInjective(Tokens(g), Tokens(h), ':');
    TokensAreInjective(g, h);
  }

  lemma HextetsAreInjective(a: Octets16, b: Octets16)
    requires HextetsOf(a) == HextetsOf(b)
    ensures a == b
  {
    forall i | 0 <= i < 8 ensures a[2 * i] == b[2 * i] && a[2 * i + 1] == b[2 * i + 1] {
      assert HextetsOf(a)[i] == HextetsOf(b)[i];
      LowByte(a[2 * i], a[2 * i + 1]);
      LowByte(b[2 * i], b[2 * i + 1]);
    }
    forall k | 0 <= k < 16 ensures a[k] == b[k] {
      assert a[2 * (k / 2)] == b[2 * (k / 2)];
    }
  }

  lemma DecimalIsPlain(n: nat)
    ensures '.' !in Decimal(n) && ':' !in Decimal(n)
  {
    Digits.PrintReadsBack(n, 10);
    assert Digits.Value('.') == -1 && Digits.Value(':') == -1;
  }

  lemma DecimalsArePlain(octets: seq<Byte>)
    ensures Plain(DecimalAll(octets), '.') && Plain(DecimalAll(octets), ':')
  {
    forall i | 0 <= i < |octets| ensures '.' !in Decimal(octets[i]) && ':' !in Decimal(octets[i]) {
      DecimalIsPlain(octets[i]);
    }
  }

  lemma DecimalAllIsInjective(a: seq<Byte>, b: seq<Byte>)
    requires DecimalAll(a) == DecimalAll(b)
    ensures a == b
  {
    assert |a| == |DecimalAll(a)| == |b|;
    forall i | 0 <= i < |a| ensures a[i] == b[i] {
      assert DecimalAll(a)[i] == DecimalAll(b)[i];
      Digits.PrintReadsBack(a[i], 10);
      Digits.PrintReadsBack(b[i], 10);
    }
  }

  lemma Le32IsInjective(m: U32, n: U32)
    requires Le32(m) == Le32(n)
    ensures m == n
  {
    var a, b := Le32(m), Le32(n);
    assert a[0] == b[0] && a[1] == b[1] && a[2] == b[2] && a[3] == b[3];
    NestedDivision(m);
    NestedDivision(n);
  }

  lemma InetText(n: U32)
    ensures |Split(Text4(n), ':')| == 1 && |Split(Text4(n), '.')| == 4
  {
    var tokens := DecimalAll(Le32(n));
    DecimalsArePlain(Le32(n));
    JoinAvoids(tokens, '.', ':');
    SplitOfPlain(Text4(n), ':');
    SplitOfJoin(tokens, '.');
  }

  lemma Inet6Text(h: Hextets)
    ensures |Split(Text6(h), ':')| > 1
  {
    TokensArePlain(h);
    SplitOfJoin(Tokens(h), ':');
  }

  lemma UnknownText()
    ensures |Split(UNKNOWN, ':')| == 1 && |Split(UNKNOWN, '.')| == 1
  {
    SplitOfPlain(UNKNOWN, ':');
    SplitOfPlain(UNKNOWN, '.');
  }

  /** The separators tell the three kinds of text apart. */
  lemma TextKinds(a: SockAddr, text: string)
    requires text == Text(a)
    ensures a.Inet6? <==> |Split(text, ':')| > 1
    ensures a.Inet? <==> |Split(text, ':')| == 1 && |Split(text, '.')| == 4
  {
    match a {
      case Inet(n) => InetText(n);
      case Inet6(octets) => Inet6Text(HextetsOf(octets));
      case OtherFamily => UnknownText();
    }
  }

  /** Different addresses are shown differently, over both families and the unknown ones. */
  lemma TextIsInjective(a: SockAddr, b: SockAddr)
    requires Text(a) == Text(b)
    ensures a == b
  {
    TextKinds(a, Text(a));
    TextKinds(b, Text(b));
    match a {
      case Inet(m) =>
        DecimalsArePlain(Le32(m));
        DecimalsArePlain(Le32(b.sAddr));
        JoinIsInjective(DecimalAll(Le32(m)), DecimalAll(Le32(b.sAddr)), '.');
        DecimalAllIsInjective(Le32(m), Le32(b.sAddr));
        Le32IsInjective(m, b.sAddr);
      case Inet6(octets) =>
        Text6IsInjective(HextetsOf(octets), HextetsOf(b.octets));
        HextetsAreInjective(octets, b.octets);
      case OtherFamily =>
    }
  }

  /** An IPv4 address off the wire is shown as its four octets in wire order. */
  lemma ShownInWireOrder(d: seq<Byte>, pos: nat)
    requires pos + 4 <= |d|
    ensures ReadInet(d, pos).Got?
    ensures Text(ReadInet(d, pos).value)
            == Digits.Print(d[pos], 10) + "." + Digits.Print(d[pos + 1], 10) + "."
               + Digits.Print(d[pos + 2], 10) + "." + Digits.Print(d[pos + 3], 10)
  {
    Le32OfWord32(d[pos + 3], d[pos + 2], d[pos + 1], d[pos]);
    JoinOfDecimals([d[pos], d[pos + 1], d[pos + 2], d[pos + 3]]);
  }

  // ---------- What the standard reads back ----------

  /** The tokens of a compressed text: an end with no group leaves an empty token. */
  function OrEmpty(groups: seq<string>): (r: seq<string>)
    ensures r != []
  {
    if groups == [] then [""] else groups
  }

  lemma CompressedTokens(left: seq<string>, right: seq<string>)
    ensures Listed(left) + "::" + Listed(right) == Join(OrEmpty(left) + [""] + OrEmpty(right), ':')
  {
    JoinOfConcat(OrEmpty(left) + [""], OrEmpty(right), ':');
    JoinOfOneMore(OrEmpty(left), "", ':');
    assert "::" == ":" + ":";
  }

  /** The run that is compressed is absent, the whole address, or has a group on either side. */
  predicate Readable(h: Hextets) {
    var (start, length) := Longest(h);
    length == 0 || length == 8 || 0 < start < start + length < 8
  }

  lemma PartlyZeroDenotes(h: Hextets)
    requires PartlyZero(h) && Readable(h)
    ensures CompressedForm(HexAll(Before(h)), HexAll(After(h)), Text6(h), h)
  {
    PartsOf(h);
    PartsAreGroups(h);
    CompressedTokens(HexAll(Before(h)), HexAll(After(h)));
  }

  lemma AllZeroDenotes(h: Hextets)
    requires Longest(h).1 == 8
    ensures CompressedForm([], [], Text6(h), h)
  {
    Expanded(h);
    CompressedTokens([], []);
    assert [""] + [""] + [""] == ["", "", ""];
  }

  lemma RunLeavesEmptyToken(h: Hextets)
    requires Longest(h).1 > 0
    ensures !NoneEmpty(Tokens(h))
  {
    if PartlyZero(h) {
      assert Tokens(h)[Longest(h).0] == "";
    } else {
      assert Tokens(h)[0] == "";
    }
  }

  lemma TokensOfFullForm(groups: seq<string>, h: Hextets)
    requires groups != [] && Groups(groups) && Text6(h) == Join(groups, ':')
    ensures groups == Tokens(h) && Longest(h).1 == 0
  {
    GroupsArePlain(groups);
    TokensArePlain(h);
    JoinIsInjective(groups, Tokens(h), ':');
    if Longest(h).1 > 0 {
      RunLeavesEmptyToken(h);
    }
  }

  lemma FullFormIsExact(groups: seq<string>, h: Hextets, g: seq<nat>)
    requires FullForm(groups, Text6(h), g)
    ensures g == h && Readable(h)
  {
    TokensOfFullForm(groups, h);
    HexAllReadsBack(h);
  }

  lemma AllZeroTokens(left: seq<string>, right: seq<string>)
    requires NoneEmpty(left) && NoneEmpty(right)
    requires OrEmpty(left) + [""] + OrEmpty(right) == ["", "", ""]
    ensures left == [] && right == []
  {
    assert |OrEmpty(left)| == 1 && |OrEmpty(right)| == 1;
    assert OrEmpty(left)[0] == ["", "", ""][0];
    assert OrEmpty(right)[0] == ["", "", ""][2];
  }

  lemma NotPadded(groups: seq<string>)
    requires NoneEmpty(OrEmpty(groups))
    ensures groups == OrEmpty(groups)
  {
    assert OrEmpty(groups)[0] != "";
  }

  lemma PartlyZeroTokens(left: seq<string>, right: seq<string>, h: Hextets)
    requires PartlyZero(h)
    requires OrEmpty(left) + [""] + OrEmpty(right) == Tokens(h)
    ensures left == HexAll(Before(h)) && right == HexAll(After(h)) && Readable(h)
  {
    PartsOf(h);
    PartsAreGroups(h);
    OneEmptyToken(HexAll(Before(h)), HexAll(After(h)), OrEmpty(left), OrEmpty(right));
    NotPadded(left);
    NotPadded(right);
  }

  lemma TokensOfCompressedForm(left: seq<string>, right: seq<string>, h: Hextets)
    requires Groups(left) && Groups(right)
    requires Text6(h) == Listed(left) + "::" + Listed(right)
    ensures Tokens(h) == OrEmpty(left) + [""] + OrEmpty(right) && Longest(h).1 > 0
  {
    GroupsArePlain(left);
    GroupsArePlain(right);
    CompressedTokens(left, right);
    TokensArePlain(h);
    JoinIsInjective(OrEmpty(left) + [""] + OrEmpty(right), Tokens(h), ':');
    assert Tokens(h)[|OrEmpty(left)|] == "";
    EmptyTokens(h);
  }

  lemma PartlyZeroValue(left: seq<string>, right: seq<string>, h: Hextets)
    requires PartlyZero(h) && left == HexAll(Before(h)) && right == HexAll(After(h))
    requires Groups(left) && Groups(right)
    ensures h == Values(left) + Zeros(8 - |left| - |right|) + Values(right)
  {
    PartsOf(h);
    PartsAreGroups(h);
  }

  lemma CompressedFormIsExact(left: seq<string>, right: seq<string>, h: Hextets, g: seq<nat>)
    requires CompressedForm(left, right, Text6(h), g)
    ensures g == h && Readable(h)
  {
    TokensOfCompressedForm(left, right, h);
    if PartlyZero(h) {
      PartlyZeroTokens(left, right, h);
      PartlyZeroValue(left, right, h);
    } else {
      GroupsArePlain(left);
      GroupsArePlain(right);
      AllZeroTokens(left, right);
      Expanded(h);
    }
  }

  lemma ReadableDenotes(h: Hextets)
    requires Readable(h)
    ensures Denotes(Text6(h), h)
  {
    if PartlyZero(h) {
      PartlyZeroDenotes(h);
    } else if Longest(h).1 == 8 {
      AllZeroDenotes(h);
    } else {
      HexAllReadsBack(h);
      assert FullForm(HexAll(h), Text6(h), h);
    }
  }

  lemma DenotesIsExact(h: Hextets, g: seq<nat>)
    requires Denotes(Text6(h), g)
    ensures g == h && Readable(h)
  {
    if groups :| FullForm(groups, Text6(h), g) {
      FullFormIsExact(groups, h, g);
    } else {
      var left, right :| CompressedForm(left, right, Text6(h), g);
      CompressedFormIsExact(left, right, h, g);
    }
  }

  /** The printed text means the printed address under the standard exactly when the
      compressed run does not touch just one end; and it never means another address. */
  lemma StandardReadsBackIff(h: Hextets, g: seq<nat>)
    ensures Denotes(Text6(h), g) <==> g == h && Readable(h)
  {
    if Denotes(Text6(h), g) {
      DenotesIsExact(h, g);
    } else if g == h && Readable(h) {
      ReadableDenotes(h);
    }
  }

  lemma ColonAtTheStart(h: Hextets)
    requires PartlyZero(h) && Longest(h).0 == 0
    ensures After(h) != [] && Text6(h) == ":" + Join(HexAll(After(h)), ':')
  {
    PartsOf(h);
    assert HexAll(Before(h)) == [];
    assert [] + [""] == [""];
    JoinOfConcat([""], HexAll(After(h)), ':');
  }

  lemma ColonAtTheEnd(h: Hextets)
    requires PartlyZero(h) && Longest(h).0 + Longest(h).1 == 8
    ensures Before(h) != [] && Text6(h) == Join(HexAll(Before(h)), ':') + ":"
  {
    PartsOf(h);
    assert HexAll(After(h)) == [];
    assert Tokens(h) == HexAll(Before(h)) + [""];
    JoinOfOneMore(HexAll(Before(h)), "", ':');
  }

  /** The texts that are printed: "::" alone, eight groups, or the groups before and behind the
      longest run, each with a colon of its own; each group in upper-case hexadecimal. */
  lemma PrintedForms(h: Hextets)
    ensures var (start, length) := Longest(h);
            if length == 8 then Text6(h) == "::"
            else if length == 0 then
              Text6(h) == Hex(h[0]) + ":" + Hex(h[1]) + ":" + Hex(h[2]) + ":" + Hex(h[3]) + ":"
                          + Hex(h[4]) + ":" + Hex(h[5]) + ":" + Hex(h[6]) + ":" + Hex(h[7])
            else Text6(h) == LeftPart(HexAll(h[..start])) + RightPart(HexAll(h[start + length..]))
  {
    var (start, length) := Longest(h);
    if length == 8 {
      JoinOfThreeEmpty();
    } else if length == 0 {
      JoinOfEight(HexAll(h));
    } else {
      JoinIsLeftPart(HexAll(h[..start]));
      JoinIsRightPart(HexAll(h[..start]) + [""], HexAll(h[start + length..]));
    }
  }

  /** The groups of an address on the wire are its pairs of octets, the first one more
      significant, and other families show no address. */
  lemma TextOfOctets(octets: Octets16, h: Hextets)
    requires forall i | 0 <= i < 8 :: h[i] == 0x100 * octets[2 * i] as int + octets[2 * i + 1] as int
    ensures Text(Inet6(octets)) == Text6(h)
    ensures Text(OtherFamily) == "<unknown format>"
  {
    assert HextetsOf(octets) == h;
  }

  /** A run at one end prints a single colon there, where the standard has two. */
  lemma OneColonAtTheEnds(h: Hextets)
    requires !Readable(h)
    ensures Text6(h) == if Longest(h).0 == 0 then ":" + Join(HexAll(After(h)), ':')
                        else Join(HexAll(Before(h)), ':') + ":"
  {
    if Longest(h).0 == 0 {
      ColonAtTheStart(h);
    } else {
      ColonAtTheEnd(h);
    }
  }

  /** The loopback address prints as ":1". */
  lemma LoopbackText(h: Hextets)
    requires h == Zeros(7) + [1]
    ensures Text6(h) == ":1" && !Readable(h)
  {
    LongestIsLeftmostLongest(h, 0, 7);
    ColonAtTheStart(h);
    assert After(h) == [1];
    assert Hex(1) == "1";
    assert HexAll([1]) == ["1"];
  }
}
