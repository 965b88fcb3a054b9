/** module/cdp_proc_print_sockaddr.c: how a neighbour's address is shown. */
module AddressText {
  import opened Bytes
  import opened SocketAddresses
  import opened SeparatedText
  import opened ZeroRuns
  import Digits

  type Hextets = h: seq<nat> | |h| == 8 && forall i | 0 <= i < 8 :: h[i] < 0x1_0000
    witness seq(8, _ => 0)

  function Hex(n: nat): string {
    Digits.Print(n, 16)
  }

  function Decimal(n: nat): string {
    Digits.Print(n, 10)
  }

  function HexAll(h: seq<nat>): seq<string> {
    seq(|h|, i requires 0 <= i < |h| => Hex(h[i]))
  }

  // ---------- The text as a list of tokens between colons ----------

  /** A run of zeros leaves one empty token, whatever its length and place; an all-zero
      address leaves three. */
  function Tokens(h: Hextets): seq<string> {
    var (start, length) := Longest(h);
    if length == 8 then ["", "", ""]
    else if length == 0 then HexAll(h)
    else HexAll(h[..start]) + [""] + HexAll(h[start + length..])
  }

  function Text6(h: Hextets): string {
    Join(Tokens(h), ':')
  }

  function HextetsOf(octets: Octets16): Hextets {
    seq(8, i requires 0 <= i < 8 => 0x100 * octets[2 * i] as int + octets[2 * i + 1] as int)
  }

  function DecimalAll(octets: seq<Byte>): seq<string> {
    seq(|octets|, i requires 0 <= i < |octets| => Decimal(octets[i]))
  }

  /** The octets in order: a little-endian s_addr holds the first one lowest. */
  function Text4(sAddr: U32): string {
    Join(DecimalAll(Le32(sAddr)), '.')
  }

  const UNKNOWN: string := "<unknown format>"

  function Text(a: SockAddr): string {
    match a
    case Inet(sAddr) => Text4(sAddr)
    case Inet6(octets) => Text6(HextetsOf(octets))
    case OtherFamily => UNKNOWN
  }

  // ---------- The printing method ----------

  /** Each token followed by a colon. */
  function LeftPart(tokens: seq<string>): string {
    if tokens == [] then "" else LeftPart(tokens[..|tokens| - 1]) + tokens[|tokens| - 1] + ":"
  }

  /** Each token preceded by a colon. */
  function RightPart(tokens: seq<string>): string {
    if tokens == [] then "" else RightPart(tokens[..|tokens| - 1]) + ":" + tokens[|tokens| - 1]
  }

  lemma {:induction false} JoinIsLeftPart(tokens: seq<string>)
    ensures Join(tokens + [""], ':') == LeftPart(tokens)
  {
    if tokens == [] {
    } else {
      var front, last := tokens[..|tokens| - 1], tokens[|tokens| - 1];
      JoinIsLeftPart(front);
      JoinOfOneMore(tokens, "", ':');
      if front != [] {
        JoinOfOneMore(front, "", ':');
        JoinOfOneMore(front, last, ':');
        assert front + [last] == tokens;
      }
    }
  }

  lemma {:induction false} JoinIsRightPart(front: seq<string>, tokens: seq<string>)
    requires front != []
    ensures Join(front + tokens, ':') == Join(front, ':') + RightPart(tokens)
  {
    if tokens == [] {
      assert front + tokens == front;
    } else {
      var most, last := tokens[..|tokens| - 1], tokens[|tokens| - 1];
      JoinIsRightPart(front, most);
      JoinOfOneMore(front + most, last, ':');
      assert front + tokens == front + most + [last];
    }
  }

  method PrintBefore(h: Hextets, end: nat) returns (text: string)
    requires end <= 8
    ensures text == LeftPart(HexAll(h[..end]))
  {
    ghost var tokens := HexAll(h[..end]);
    text := "";
    for i := 0 to end
      invariant text == LeftPart(tokens[..i])
    {
      assert tokens[..i + 1][..i] == tokens[..i];
      text := text + Hex(h[i]) + ":";
    }
    assert tokens[..end] == tokens;
  }

  method PrintAfter(h: Hextets, start: nat) returns (text: string)
    requires start <= 8
    ensures text == RightPart(HexAll(h[start..]))
  {
    ghost var tokens := HexAll(h[start..]);
    text := "";
    for i := start to 8
      invariant text == RightPart(tokens[..i - start])
    {
      assert tokens[..i + 1 - start][..i - start] == tokens[..i - start];
      text := text + ":" + Hex(h[i]);
    }
    assert tokens[..8 - start] == tokens;
  }

  lemma JoinOfFour(t: seq<string>, separator: char)
    requires |t| >= 4
    ensures Join(t[..4], separator)
            == t[0] + [separator] + t[1] + [separator] + t[2] + [separator] + t[3]
  {
    JoinOfOneMore(t[..1], t[1], separator);
    assert t[..1] + [t[1]] == t[..2];
    JoinOfOneMore(t[..2], t[2], separator);
    assert t[..2] + [t[2]] == t[..3];
    JoinOfOneMore(t[..3], t[3], separator);
    assert t[..3] + [t[3]] == t[..4];
  }

  lemma JoinOfEight(t: seq<string>)
    requires |t| == 8
    ensures Join(t, ':')
            == t[0] + ":" + t[1] + ":" + t[2] + ":" + t[3] + ":" + t[4] + ":" + t[5] + ":" + t[6] + ":" + t[7]
  {
    JoinOfFour(t, ':');
    JoinOfOneMore(t[..4], t[4], ':');
    assert t[..4] + [t[4]] == t[..5];
    JoinOfOneMore(t[..5], t[5], ':');
    assert t[..5] + [t[5]] == t[..6];
    JoinOfOneMore(t[..6], t[6], ':');
    assert t[..6] + [t[6]] == t[..7];
    JoinOfOneMore(t[..7], t[7], ':');
    assert t[..7] + [t[7]] == t;
  }

  lemma JoinOfThreeEmpty()
    ensures Join(["", "", ""], ':') == "::"
  {
    JoinOfOneMore([""], "", ':');
    JoinOfOneMore(["", ""], "", ':');
  }

  method PrintInet6(h: Hextets) returns (text: string)
    ensures text == Text6(h)
  {
    var longestIndex, longest := FindLongest(h);
    if longest == 8 {
      text := "::";
      JoinOfThreeEmpty();
    } else if longest == 0 {
      text := Hex(h[0]) + ":" + Hex(h[1]) + ":" + Hex(h[2]) + ":" + Hex(h[3]) + ":"
              + Hex(h[4]) + ":" + Hex(h[5]) + ":" + Hex(h[6]) + ":" + Hex(h[7]);
      JoinOfEight(HexAll(h));
    } else {
      var before := PrintBefore(h, longestIndex);
      var after := PrintAfter(h, longestIndex + longest);
      text := before + after;
      JoinIsLeftPart(HexAll(h[..longestIndex]));
      JoinIsRightPart(HexAll(h[..longestIndex]) + [""], HexAll(h[longestIndex + longest..]));
    }
  }

  lemma JoinOfDecimals(octets: seq<Byte>)
    requires |octets| == 4
    ensures Join(DecimalAll(octets), '.')
            == Decimal(octets[0]) + "." + Decimal(octets[1]) + "." + Decimal(octets[2]) + "." + Decimal(octets[3])
  {
    var tokens := DecimalAll(octets);
    JoinOfFour(tokens, '.');
    assert tokens[..4] == tokens;
  }

  lemma TopOctet(n: U32)
    ensures n / 0x100_0000 % 0x100 == n / 0x100_0000
  {
  }

  method PrintInet(n: U32) returns (text: string)
    ensures text == Text4(n)
  {
    TopOctet(n);
    JoinOfDecimals(Le32(n));
    text := Decimal(n % 0x100) + "." + Decimal(n / 0x100 % 0x100) + "."
            + Decimal(n / 0x1_0000 % 0x100) + "." + Decimal(n / 0x100_0000 % 0x100);
  }

  method PrintSockaddr(address: SockAddr) returns (text: string)
    ensures text == Text(address)
  {
    match address {
      case Inet(n) => text := PrintInet(n);
      case Inet6(octets) =>
        var hextets: seq<nat> := [];
        for i := 0 to 8
          invariant hextets == HextetsOf(octets)[..i]
        {
          hextets := hextets + [0x100 * octets[2 * i] as int + octets[2 * i + 1] as int];
        }
        assert hextets == HextetsOf(octets);
        text := PrintInet6(hextets);
      case OtherFamily => text := UNKNOWN;
    }
  }
}
