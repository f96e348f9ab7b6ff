/**
  The in-memory part of SSDP discovery: the M-SEARCH request the finder
  multicasts, the receive timeout of its socket, the dotted-quad test and
  the choice of the local address the socket binds to.
 */
module Finder {
  import opened JavaLang

  const MulticastAddress: string := "239.255.255.250"
  const MulticastPort: int := 1900

  /** TimeUnit.SECONDS.toMillis(60) cast to int. */
  const DefaultMaxReplyTimeMs: Int32 := 60000

  // ---------------------------------------------------------------------
  // The search request
  // ---------------------------------------------------------------------

  /** The request line and the four headers of the M-SEARCH request, in order. */
  function SearchLines(timeoutMs: Int32): seq<string>
  {
    [ "M-SEARCH * HTTP/1.1",
      "Host: " + MulticastAddress + ":" + IntToString(MulticastPort),
      "Man:\"ssdp:discover\"",
      "MX: " + IntToString(MillisToSeconds(timeoutMs)),
      "ST: upnp:rootdevice" ]
  }

  /** The lines, each followed by CRLF. */
  function CrlfTerminated(lines: seq<string>): string
  {
    if lines == [] then "" else CrlfTerminated(lines[..|lines| - 1]) + lines[|lines| - 1] + CRLF
  }

  /** The search request: its five lines and the empty line that ends the header block. */
  function SearchRequest(timeoutMs: Int32): string
  {
    CrlfTerminated(SearchLines(timeoutMs) + [""])
  }

  /** The finder's settings and the address its socket binds to. */
  class DeviceFinder {
    const timeoutMs: Int32
    /** The address the socket binds to; None binds the wildcard address. */
    const localAddress: Option<InetAddress>

    /** UPnPDeviceFinder(): the default reply time, on an IPv4 address. */
    constructor Default(interfaces: Option<seq<seq<InetAddress>>>)
      ensures timeoutMs == DefaultMaxReplyTimeMs
      ensures localAddress == LocalAddress(interfaces, true)
    {
      timeoutMs := DefaultMaxReplyTimeMs;
      var address := GetDeviceLocalIP(interfaces, true);
      localAddress := address;
    }

    /** UPnPDeviceFinder(int timeoutMs): the given reply time, on an IPv4 address. */
    constructor (timeoutMs: Int32, interfaces: Option<seq<seq<InetAddress>>>)
      ensures this.timeoutMs == timeoutMs
      ensures localAddress == LocalAddress(interfaces, true)
    {
      this.timeoutMs := timeoutMs;
      var address := GetDeviceLocalIP(interfaces, true);
      localAddress := address;
    }

    /** The request, appended piece by piece as the source's StringBuilder does. */
    method BuildSSDPSearchString() returns (content: string)
      ensures content == SearchRequest(timeoutMs)
    {
      ghost var lines := SearchLines(timeoutMs) + [""];
      content := "";
      content := content + "M-SEARCH * HTTP/1.1";
      content := content + CRLF;
      assert lines[..1][..0] == [];
      assert content == CrlfTerminated(lines[..1]);
      content := content + ("Host: " + MulticastAddress + ":" + IntToString(MulticastPort));
      content := content + CRLF;
      assert lines[..2][..1] == lines[..1];
      assert content == CrlfTerminated(lines[..2]);
      content := content + "Man:\"ssdp:discover\"";
      content := content + CRLF;
      assert lines[..3][..2] == lines[..2];
      assert content == CrlfTerminated(lines[..3]);
      content := content + "MX: ";
      content := content + IntToString(MillisToSeconds(timeoutMs));
      content := content + CRLF;
      assert lines[..4][..3] == lines[..3];
      assert content == CrlfTerminated(lines[..4]);
      content := content + "ST: upnp:rootdevice";
      content := content + CRLF;
      assert lines[..5][..4] == lines[..4];
      assert content == CrlfTerminated(lines[..5]);
      content := content + CRLF;
      assert lines[..5] == lines[..|lines| - 1];
      assert lines[..6] == lines;
    }

    /** The socket's receive timeout, or None where setSoTimeout throws. */
    function ReceiveTimeout(): (r: Option<Int32>)
      ensures r == SocketTimeout(timeoutMs)
      ensures 0 <= timeoutMs <= 0x7fff_ffff - 1000 ==> r == Some(timeoutMs + 1000)
    {
      SocketTimeout(timeoutMs)
    }
  }

  /** The first line, terminated, followed by the rest. */
  lemma {:induction false} CrlfTerminatedCons(line: string, rest: seq<string>)
    ensures CrlfTerminated([line] + rest) == line + CRLF + CrlfTerminated(rest)
    decreases |rest|
  {
    var lines := [line] + rest;
    if rest == [] {
      assert lines[..0] == [];
    } else {
      var front := rest[..|rest| - 1];
      assert lines[..|lines| - 1] == [line] + front;
      CrlfTerminatedCons(line, front);
    }
  }

  /** CRLF-terminated lines without carriage returns split back into those lines and one empty piece. */
  lemma {:induction false} CrlfTerminatedPieces(lines: seq<string>)
    requires forall i :: 0 <= i < |lines| ==> '\r' !in lines[i]
    ensures CrlfPieces(CrlfTerminated(lines)) == lines + [""]
    decreases |lines|
  {
    if lines != [] {
      assert lines == [lines[0]] + lines[1..];
      CrlfTerminatedCons(lines[0], lines[1..]);
      CrlfTerminatedPieces(lines[1..]);
      CrlfPiecesCons(lines[0], CrlfTerminated(lines[1..]));
    }
  }

  /** Splitting the request at CRLF gives the five lines, then the two empty pieces after the last two CRLFs. */
  lemma SearchRequestPieces(timeoutMs: Int32)
    ensures CrlfPieces(SearchRequest(timeoutMs)) == SearchLines(timeoutMs) + ["", ""]
  {
    SearchLinesNoCarriageReturn(timeoutMs);
    var lines := SearchLines(timeoutMs) + [""];
    assert forall i :: 0 <= i < |lines| - 1 ==> lines[i] == SearchLines(timeoutMs)[i];
    CrlfTerminatedPieces(lines);
  }

  /** No line of the request holds a carriage return. */
  lemma SearchLinesNoCarriageReturn(timeoutMs: Int32)
    ensures forall i :: 0 <= i < |SearchLines(timeoutMs)| ==> '\r' !in SearchLines(timeoutMs)[i]
  {
    var lines := SearchLines(timeoutMs);
    PortDigits();
    HostText();
    FixedLinesNoCarriageReturn();
    IntToStringCharacters(MillisToSeconds(timeoutMs));
    NoCarriageReturnJoined("MX: ", IntToString(MillisToSeconds(timeoutMs)));
  }

  /** The lines of the request that do not depend on the timeout hold no carriage return. */
  lemma FixedLinesNoCarriageReturn()
    ensures '\r' !in "M-SEARCH * HTTP/1.1" && '\r' !in "Man:\"ssdp:discover\"" && '\r' !in "ST: upnp:rootdevice"
    ensures '\r' !in "Host: 239.255.255.250:1900" && '\r' !in "MX: "
  {
  }

  /** Two pieces without a carriage return put together have none. */
  lemma NoCarriageReturnJoined(a: string, b: string)
    requires '\r' !in a && '\r' !in b
    ensures '\r' !in a + b
  {
    assert forall i :: 0 <= i < |a + b| ==> (a + b)[i] == if i < |a| then a[i] else b[i - |a|];
  }

  /** String.split("\r\n") on the request gives exactly the five lines. */
  lemma SearchRequestSplit(timeoutMs: Int32)
    ensures SplitCrlf(SearchRequest(timeoutMs)) == SearchLines(timeoutMs)
  {
    var lines := SearchLines(timeoutMs);
    SearchRequestPieces(timeoutMs);
    var pieces := lines + ["", ""];
    assert pieces[..6] == lines + [""];
    assert pieces[..5] == lines;
    assert pieces[4] == "ST: upnp:rootdevice";
  }

  /** The request ends with the blank line that closes the header block. */
  lemma SearchRequestEnds(timeoutMs: Int32)
    ensures var request := SearchRequest(timeoutMs);
      |request| >= 4 && request[|request| - 4..] == "\r\n\r\n"
  {
    var lines := SearchLines(timeoutMs) + [""];
    var head := CrlfTerminated(lines[..5]);
    assert lines[..6] == lines && lines[5] == "";
    assert SearchRequest(timeoutMs) == head + "" + CRLF;
    assert lines[..5][..4] == lines[..4];
    assert head == CrlfTerminated(lines[..4]) + lines[4] + CRLF;
    var request := SearchRequest(timeoutMs);
    assert request[|request| - 4..] == head[|head| - 2..] + CRLF;
  }

  /** The MX header carries the timeout in whole seconds, truncated, as Long.toString renders it. */
  lemma SearchRequestMaxWait(timeoutMs: Int32)
    ensures var mx := SearchLines(timeoutMs)[3];
      |mx| > 4 && mx[..4] == "MX: " && DecimalValue(mx[4..]) == MillisToSeconds(timeoutMs)
    ensures 0 <= timeoutMs ==> MillisToSeconds(timeoutMs) * 1000 <= timeoutMs < MillisToSeconds(timeoutMs) * 1000 + 1000
  {
    var mx := SearchLines(timeoutMs)[3];
    IntToStringRoundTrip(MillisToSeconds(timeoutMs));
    assert mx[4..] == IntToString(MillisToSeconds(timeoutMs));
  }

  /** The Host header names the SSDP multicast group and port. */
  lemma SearchRequestHost(timeoutMs: Int32)
    ensures SearchLines(timeoutMs)[1] == "Host: 239.255.255.250:1900"
  {
    PortDigits();
    HostText();
  }

  /** Integer.toString(1900). */
  lemma PortDigits()
    ensures IntToString(MulticastPort) == "1900"
  {
    assert NatToDigits(19) == NatToDigits(1) + "9";
    assert NatToDigits(190) == NatToDigits(19) + "0";
    assert NatToDigits(1900) == NatToDigits(190) + "0";
  }

  /** The pieces of the Host header, put together. */
  lemma HostText()
    ensures "Host: " + MulticastAddress + ":" + "1900" == "Host: 239.255.255.250:1900"
  {
  }

  // ---------------------------------------------------------------------
  // The receive timeout
  // ---------------------------------------------------------------------

  /**
    `mTimeoutMs + 1000` in int arithmetic, handed to setSoTimeout, which
    throws IllegalArgumentException (None here) for a negative value.
   */
  function SocketTimeout(timeoutMs: Int32): (r: Option<Int32>)
    ensures r.None? <==> WrapInt32(timeoutMs + 1000) < 0
    ensures r.Some? ==> r.value == WrapInt32(timeoutMs + 1000)
  {
    var t := WrapInt32(timeoutMs + 1000);
    if t < 0 then None else Some(t)
  }

  /** The default finder waits 61 seconds for replies. */
  lemma DefaultSocketTimeout()
    ensures SocketTimeout(DefaultMaxReplyTimeMs) == Some(61000)
  {
  }

  /** A timeout within 1000 of the int maximum wraps to a negative value and is rejected. */
  lemma SocketTimeoutOverflow(timeoutMs: Int32)
    requires timeoutMs > 0x7fff_ffff - 1000
    ensures SocketTimeout(timeoutMs) == None
  {
    assert WrapInt32(timeoutMs + 1000) == timeoutMs + 1000 - 0x1_0000_0000;
  }

  // ---------------------------------------------------------------------
  // isIPv4Address
  // ---------------------------------------------------------------------

  /** One group of IPV4_PATTERN: `25[0-5]`, `2[0-4]\d` or `[0-1]?\d?\d`. */
  predicate OctetPattern(g: string): (r: bool)
    ensures r ==> 1 <= |g| <= 3 && AllDigits(g)
  {
    (|g| == 3 && g[0] == '2' && g[1] == '5' && '0' <= g[2] <= '5') ||
    (|g| == 3 && g[0] == '2' && '0' <= g[1] <= '4' && IsDigit(g[2])) ||
    (|g| == 1 && IsDigit(g[0])) ||
    (|g| == 2 && IsDigit(g[0]) && IsDigit(g[1])) ||
    (|g| == 3 && '0' <= g[0] <= '1' && IsDigit(g[1]) && IsDigit(g[2]))
  }

  /** The text between dots, left to right, empty pieces kept. */
  function DotGroups(s: string): (r: seq<string>)
    ensures |r| >= 1
    ensures forall i :: 0 <= i < |r| ==> '.' !in r[i]
    decreases |s|
  {
    if s == [] then [""]
    else
      var rest := DotGroups(s[1..]);
      if s[0] == '.' then [""] + rest
      else
        assert '.' !in rest[0];
        [[s[0]] + rest[0]] + rest[1..]
  }

  /** Groups joined back together with dots between them. */
  function JoinDots(groups: seq<string>): string
    requires |groups| >= 1
  {
    if |groups| == 1 then groups[0] else groups[0] + "." + JoinDots(groups[1..])
  }

  /**
    isIPv4Address: the anchored IPV4_PATTERN matches. No group of the
    pattern contains a dot, so a match is exactly four dot-separated
    groups, each matching the group pattern.
   */
  predicate IsIPv4Address(s: string)
  {
    var groups := DotGroups(s);
    |groups| == 4 && forall i :: 0 <= i < 4 ==> OctetPattern(groups[i])
  }

  /** A group matches exactly when it is one to three digits worth at most 255; leading zeros pass. */
  lemma OctetPatternValue(g: string)
    ensures OctetPattern(g) <==> 1 <= |g| <= 3 && AllDigits(g) && DigitsValue(g) <= 255
  {
    if 1 <= |g| <= 3 && AllDigits(g) {
      var d0 := g[0] as int - '0' as int;
      if |g| == 1 {
        assert DigitsValue(g) == d0;
      } else {
        var d1 := g[1] as int - '0' as int;
        assert g[..1][..0] == [];
        assert DigitsValue(g[..1]) == d0;
        if |g| == 2 {
          assert DigitsValue(g) == d0 * 10 + d1;
        } else {
          var d2 := g[2] as int - '0' as int;
          assert g[..2][..1] == g[..1];
          assert DigitsValue(g[..2]) == d0 * 10 + d1;
          assert DigitsValue(g) == d0 * 100 + d1 * 10 + d2;
        }
      }
    }
  }

  /** Splitting loses nothing: joining the groups gives back the text. */
  lemma {:induction false} JoinDotGroups(s: string)
    ensures JoinDots(DotGroups(s)) == s
    decreases |s|
  {
    if s != [] {
      var rest := DotGroups(s[1..]);
      JoinDotGroups(s[1..]);
      var groups := DotGroups(s);
      if s[0] == '.' {
        assert groups == [""] + rest && groups[1..] == rest;
        assert s == "" + "." + s[1..];
      } else if |rest| == 1 {
        assert groups == [[s[0]] + rest[0]];
        assert s == [s[0]] + s[1..];
      } else {
        assert groups == [[s[0]] + rest[0]] + rest[1..] && groups[1..] == rest[1..];
        assert JoinDots(rest) == rest[0] + "." + JoinDots(rest[1..]);
        assert s == [s[0]] + s[1..];
      }
    }
  }

  /** A group without a dot, followed by a dot, is split off as one group. */
  lemma {:induction false} DotGroupsCons(g: string, rest: string)
    requires '.' !in g
    ensures DotGroups(g + "." + rest) == [g] + DotGroups(rest)
    decreases |g|
  {
    var s := g + "." + rest;
    if g == [] {
      assert s == "." + rest;
      assert s[1..] == rest;
    } else {
      assert s[0] == g[0];
      assert s[1..] == g[1..] + "." + rest;
      DotGroupsCons(g[1..], rest);
      assert [g[0]] + g[1..] == g;
    }
  }

  /** Text without a dot is a single group. */
  lemma {:induction false} DotGroupsSingle(g: string)
    requires '.' !in g
    ensures DotGroups(g) == [g]
    decreases |g|
  {
    if g != [] {
      DotGroupsSingle(g[1..]);
      assert [g[0]] + g[1..] == g;
    }
  }

  /** Every accepted address is four dot-separated groups of one to three digits, each at most 255. */
  lemma IPv4AddressIsDottedQuad(s: string)
    requires IsIPv4Address(s)
    ensures var g := DotGroups(s);
      s == g[0] + "." + g[1] + "." + g[2] + "." + g[3] &&
      forall i :: 0 <= i < 4 ==> 1 <= |g[i]| <= 3 && AllDigits(g[i]) && DigitsValue(g[i]) <= 255
  {
    var g := DotGroups(s);
    JoinDotGroups(s);
    assert g[1..][1..] == g[2..] && g[2..][1..] == g[3..];
    assert JoinDots(g[2..]) == g[2] + "." + g[3];
    assert JoinDots(g[1..]) == g[1] + "." + (g[2] + "." + g[3]);
    assert s == g[0] + "." + (g[1] + "." + (g[2] + "." + g[3]));
    forall i | 0 <= i < 4
      ensures 1 <= |g[i]| <= 3 && AllDigits(g[i]) && DigitsValue(g[i]) <= 255
    {
      OctetPatternValue(g[i]);
    }
  }

  /** A group the pattern accepts is all digits, so it holds no dot. */
  lemma OctetPatternNoDot(g: string)
    requires OctetPattern(g)
    ensures '.' !in g
  {
    assert forall k :: 0 <= k < |g| ==> IsDigit(g[k]);
  }

  /** Dots between four groups, read left to right or right to left, give the same text. */
  lemma DotsAssociate(g0: string, g1: string, g2: string, g3: string)
    ensures g0 + "." + g1 + "." + g2 + "." + g3 == g0 + "." + (g1 + "." + (g2 + "." + g3))
  {
  }

  /** Four groups without dots, joined by dots, split back into those four groups. */
  lemma DotGroupsQuad(g0: string, g1: string, g2: string, g3: string)
    requires '.' !in g0 && '.' !in g1 && '.' !in g2 && '.' !in g3
    ensures DotGroups(g0 + "." + g1 + "." + g2 + "." + g3) == [g0, g1, g2, g3]
  {
    DotGroupsSingle(g3);
    DotGroupsCons(g2, g3);
    DotGroupsCons(g1, g2 + "." + g3);
    DotGroupsCons(g0, g1 + "." + (g2 + "." + g3));
    DotsAssociate(g0, g1, g2, g3);
  }

  /** Every four groups of one to three digits, each at most 255, joined by dots are accepted. */
  lemma DottedQuadIsIPv4Address(g0: string, g1: string, g2: string, g3: string)
    requires 1 <= |g0| <= 3 && AllDigits(g0) && DigitsValue(g0) <= 255
    requires 1 <= |g1| <= 3 && AllDigits(g1) && DigitsValue(g1) <= 255
    requires 1 <= |g2| <= 3 && AllDigits(g2) && DigitsValue(g2) <= 255
    requires 1 <= |g3| <= 3 && AllDigits(g3) && DigitsValue(g3) <= 255
    ensures IsIPv4Address(g0 + "." + g1 + "." + g2 + "." + g3)
  {
    OctetPatternValue(g0);
    OctetPatternValue(g1);
    OctetPatternValue(g2);
    OctetPatternValue(g3);
    OctetPatternNoDot(g0);
    OctetPatternNoDot(g1);
    OctetPatternNoDot(g2);
    OctetPatternNoDot(g3);
    DotGroupsQuad(g0, g1, g2, g3);
  }

  /** IPv6 text, which holds a colon, is never taken for an IPv4 address. */
  lemma ColonIsNotIPv4(s: string)
    ensures ':' in s ==> !IsIPv4Address(s)
  {
    if IsIPv4Address(s) {
      var g := DotGroups(s);
      IPv4AddressIsDottedQuad(s);
      forall i | 0 <= i < 4
        ensures ':' !in g[i]
      {
        assert forall k :: 0 <= k < |g[i]| ==> IsDigit(g[i][k]);
      }
      assert ':' !in s;
    }
  }

  /** Upper-casing a group changes its verdict no more than it changes its digits. */
  lemma OctetPatternUpper(g: string)
    ensures OctetPattern(ToUpperCase(g)) == OctetPattern(g)
  {
    var u := ToUpperCase(g);
    assert forall k :: 0 <= k < |g| ==> (IsDigit(u[k]) <==> IsDigit(g[k])) && (IsDigit(g[k]) ==> u[k] == g[k]);
  }

  /** Upper-casing a character put in front of some text. */
  lemma ToUpperCaseCons(c: char, t: string)
    ensures ToUpperCase([c] + t) == [UpperChar(c)] + ToUpperCase(t)
  {
  }

  /** An empty group in front keeps the groups of the upper-cased text in step. */
  lemma UpperGroupsEmptyFirst(rest: seq<string>, urest: seq<string>)
    requires |urest| == |rest|
    requires forall i :: 0 <= i < |rest| ==> urest[i] == ToUpperCase(rest[i])
    ensures forall i :: 0 <= i < |rest| + 1 ==> ([""] + urest)[i] == ToUpperCase(([""] + rest)[i])
  {
    forall i | 0 <= i < |rest| + 1
      ensures ([""] + urest)[i] == ToUpperCase(([""] + rest)[i])
    {
      if i > 0 {
        assert ([""] + urest)[i] == urest[i - 1] && ([""] + rest)[i] == rest[i - 1];
      }
    }
  }

  /** A character added to the first group, upper-cased, keeps the groups in step. */
  lemma UpperGroupsExtendFirst(c: char, rest: seq<string>, urest: seq<string>)
    requires |rest| >= 1 && |urest| == |rest|
    requires forall i :: 0 <= i < |rest| ==> urest[i] == ToUpperCase(rest[i])
    ensures forall i :: 0 <= i < |rest| ==>
      ([[UpperChar(c)] + urest[0]] + urest[1..])[i] == ToUpperCase(([[c] + rest[0]] + rest[1..])[i])
  {
    forall i | 0 <= i < |rest|
      ensures ([[UpperChar(c)] + urest[0]] + urest[1..])[i] == ToUpperCase(([[c] + rest[0]] + rest[1..])[i])
    {
      if i == 0 {
        ToUpperCaseCons(c, rest[0]);
      } else {
        assert ([[UpperChar(c)] + urest[0]] + urest[1..])[i] == urest[i];
        assert ([[c] + rest[0]] + rest[1..])[i] == rest[i];
      }
    }
  }

  /** The groups of the upper-cased text are the upper-cased groups. */
  lemma {:induction false} DotGroupsUpper(s: string)
    ensures |DotGroups(ToUpperCase(s))| == |DotGroups(s)|
    ensures forall i :: 0 <= i < |DotGroups(s)| ==> DotGroups(ToUpperCase(s))[i] == ToUpperCase(DotGroups(s)[i])
    decreases |s|
  {
    if s != [] {
      var u := ToUpperCase(s);
      assert u[1..] == ToUpperCase(s[1..]);
      DotGroupsUpper(s[1..]);
      var rest := DotGroups(s[1..]);
      var urest := DotGroups(u[1..]);
      if s[0] == '.' {
        assert u[0] == '.';
        assert DotGroups(s) == [""] + rest;
        assert DotGroups(u) == [""] + urest;
        UpperGroupsEmptyFirst(rest, urest);
      } else {
        assert u[0] == UpperChar(s[0]) && u[0] != '.';
        assert DotGroups(s) == [[s[0]] + rest[0]] + rest[1..];
        assert DotGroups(u) == [[u[0]] + urest[0]] + urest[1..];
        UpperGroupsExtendFirst(s[0], rest, urest);
      }
    }
  }

  /** getDeviceLocalIP upper-cases the text first; that never changes the verdict. */
  lemma UpperCaseKeepsVerdict(s: string)
    ensures IsIPv4Address(ToUpperCase(s)) == IsIPv4Address(s)
  {
    DotGroupsUpper(s);
    var g := DotGroups(s);
    forall i | 0 <= i < |g|
      ensures OctetPattern(DotGroups(ToUpperCase(s))[i]) == OctetPattern(g[i])
    {
      OctetPatternUpper(g[i]);
    }
  }

  // ---------------------------------------------------------------------
  // getDeviceLocalIP
  // ---------------------------------------------------------------------

  /** An InetAddress as the selection sees it. */
  datatype InetAddress = InetAddress(hostAddress: string, isLoopback: bool)

  /** Non-loopback, and of the requested family by isIPv4Address on the upper-cased text. */
  predicate Qualifies(addr: InetAddress, useIPv4: bool)
  {
    !addr.isLoopback && IsIPv4Address(ToUpperCase(addr.hostAddress)) == useIPv4
  }

  /** The addresses of all interfaces, interface by interface. */
  function Flatten(interfaces: seq<seq<InetAddress>>): seq<InetAddress>
  {
    if interfaces == [] then [] else interfaces[0] + Flatten(interfaces[1..])
  }

  /** The first qualifying address of the list. */
  function FirstQualifying(addrs: seq<InetAddress>, useIPv4: bool): (r: Option<InetAddress>)
    ensures r.None? <==> forall k :: 0 <= k < |addrs| ==> !Qualifies(addrs[k], useIPv4)
    ensures r.Some? ==>
      exists k :: 0 <= k < |addrs| && addrs[k] == r.value && Qualifies(r.value, useIPv4) &&
        forall j :: 0 <= j < k ==> !Qualifies(addrs[j], useIPv4)
  {
    if addrs == [] then None
    else if Qualifies(addrs[0], useIPv4) then Some(addrs[0])
    else
      var r := FirstQualifying(addrs[1..], useIPv4);
      assert forall k :: 1 <= k < |addrs| ==> addrs[k] == addrs[1..][k - 1];
      r
  }

  /**
    The address getDeviceLocalIP returns: None (null) when the interfaces
    cannot be listed or no address qualifies.
   */
  function LocalAddress(interfaces: Option<seq<seq<InetAddress>>>, useIPv4: bool): Option<InetAddress>
  {
    if interfaces.None? then None else FirstQualifying(Flatten(interfaces.value), useIPv4)
  }

  /** A qualifying address on an earlier interface wins over any on a later one. */
  lemma {:induction false} EarlierInterfaceWins(front: seq<seq<InetAddress>>, back: seq<seq<InetAddress>>, useIPv4: bool)
    requires FirstQualifying(Flatten(front), useIPv4).Some?
    ensures FirstQualifying(Flatten(front + back), useIPv4) == FirstQualifying(Flatten(front), useIPv4)
  {
    FlattenAppend(front, back);
    FirstQualifyingAppend(Flatten(front), Flatten(back), useIPv4);
  }

  lemma {:induction false} FlattenAppend(front: seq<seq<InetAddress>>, back: seq<seq<InetAddress>>)
    ensures Flatten(front + back) == Flatten(front) + Flatten(back)
  {
    if front != [] {
      var both := front + back;
      assert both[0] == front[0] && both[1..] == front[1..] + back;
      FlattenAppend(front[1..], back);
      assert Flatten(both) == both[0] + Flatten(both[1..]);
      assert Flatten(front) == front[0] + Flatten(front[1..]);
    } else {
      assert front + back == back;
    }
  }

  lemma {:induction false} FirstQualifyingAppend(xs: seq<InetAddress>, ys: seq<InetAddress>, useIPv4: bool)
    requires FirstQualifying(xs, useIPv4).Some?
    ensures FirstQualifying(xs + ys, useIPv4) == FirstQualifying(xs, useIPv4)
  {
    if !Qualifies(xs[0], useIPv4) {
      assert (xs + ys)[1..] == xs[1..] + ys;
      FirstQualifyingAppend(xs[1..], ys, useIPv4);
    }
  }

  /** The scan from position `m` of one interface's addresses, followed by the later interfaces' addresses. */
  lemma FirstQualifyingStep(addrs: seq<InetAddress>, m: nat, later: seq<InetAddress>, useIPv4: bool)
    requires m < |addrs|
    ensures Qualifies(addrs[m], useIPv4) ==> FirstQualifying(addrs[m..] + later, useIPv4) == Some(addrs[m])
    ensures !Qualifies(addrs[m], useIPv4) ==>
      FirstQualifying(addrs[m..] + later, useIPv4) == FirstQualifying(addrs[m + 1..] + later, useIPv4)
  {
    var xs := addrs[m..] + later;
    assert xs[0] == addrs[m];
    assert xs[1..] == addrs[m + 1..] + later;
  }

  /**
    getDeviceLocalIP: scans interface by interface, address by address,
    and returns the first that qualifies. `interfaces` is None where
    NetworkInterface.getNetworkInterfaces fails.
   */
  method GetDeviceLocalIP(interfaces: Option<seq<seq<InetAddress>>>, useIPv4: bool) returns (r: Option<InetAddress>)
    ensures r == LocalAddress(interfaces, useIPv4)
  {
    if interfaces.None? {
      return None;
    }
    var all := interfaces.value;
    var n := 0;
    while n < |all|
      invariant 0 <= n <= |all|
      invariant FirstQualifying(Flatten(all), useIPv4) == FirstQualifying(Flatten(all[n..]), useIPv4)
    {
      var addrs := all[n];
      assert all[n..][1..] == all[n + 1..];
      ghost var later := Flatten(all[n + 1..]);
      assert Flatten(all[n..]) == addrs[0..] + later;
      var m := 0;
      while m < |addrs|
        invariant 0 <= m <= |addrs|
        invariant FirstQualifying(Flatten(all), useIPv4) == FirstQualifying(addrs[m..] + later, useIPv4)
      {
        var addr := addrs[m];
        FirstQualifyingStep(addrs, m, later, useIPv4);
        if !addr.isLoopback {
          var sAddr := ToUpperCase(addr.hostAddress);
          var isIPv4 := IsIPv4Address(sAddr);
          if useIPv4 {
            if isIPv4 {
              return Some(addr);
            }
          } else {
            if !isIPv4 {
              return Some(addr);
            }
          }
        }
        m := m + 1;
      }
      assert addrs[m..] + later == later;
      n := n + 1;
    }
    return None;
  }
}
