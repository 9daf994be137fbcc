/**
 * The wire codec of the network of counters: a request is one text "segment"
 * of the form FLAG->address:port, where FLAG is a three-character opcode and
 * address:port identifies the sender.
 */
module MessageUtils {
  import opened Wrappers

  const FLAG_START_INDEX: nat := 0
  const FLAG_END_INDEX: nat := 3
  const SEGMENT_IP_AND_PORT_INDEX: nat := 1
  const SEGMENT_SEPARATOR: string := "->"

  /** The Java exceptions that the decoders raise on a malformed segment. */
  datatype SegmentError = StringIndexOutOfBounds | ArrayIndexOutOfBounds

  // ---------------------------------------------------------------------
  // Decimal text of a Java int (Integer.toString)
  // ---------------------------------------------------------------------

  predicate IsDigit(c: char) {
    '0' <= c <= '9'
  }

  function DigitChar(d: nat): (c: char)
    requires d < 10
    ensures IsDigit(c)
  {
    (('0' as int) + d) as char
  }

  /** The decimal digits of n, most significant first, without leading zeros. */
  function NatToDecimal(n: nat): (r: string)
    ensures |r| >= 1
    ensures forall k :: 0 <= k < |r| ==> IsDigit(r[k])
    ensures |r| > 1 ==> r[0] != '0'
    decreases n
  {
    if n < 10 then [DigitChar(n)] else NatToDecimal(n / 10) + [DigitChar(n % 10)]
  }

  /** Integer.toString: a minus sign for negative values, then the digits. */
  function IntToDecimal(n: int): (r: string)
    ensures |r| >= 1
    ensures forall k :: 1 <= k < |r| ==> IsDigit(r[k])
    ensures IsDigit(r[0]) <==> n >= 0
    ensures r[0] == '-' <==> n < 0
  {
    if n < 0 then "-" + NatToDecimal(-n) else NatToDecimal(n)
  }

  // ---------------------------------------------------------------------
  // Occurrences of the separator
  // ---------------------------------------------------------------------

  /** The separator "->" occurs in s starting at index i. */
  predicate SepAt(s: string, i: int) {
    0 <= i && i + 1 < |s| && s[i] == SEGMENT_SEPARATOR[0] && s[i + 1] == SEGMENT_SEPARATOR[1]
  }

  predicate HasSeparator(s: string) {
    exists i :: 0 <= i < |s| && SepAt(s, i)
  }

  /** The index of the leftmost occurrence of the separator, as a regex search finds it. */
  function FindSep(s: string): (r: Option<nat>)
    ensures r.Some? ==> SepAt(s, r.value) && forall j :: 0 <= j < r.value ==> !SepAt(s, j)
    ensures r.None? <==> !HasSeparator(s)
    decreases |s|
  {
    if |s| < 2 then None
    else if SepAt(s, 0) then Some(0)
    else
      match FindSep(s[1..])
      case None =>
        assert forall j :: 0 < j < |s| ==> !SepAt(s, j) by {
          forall j | 0 < j < |s| ensures !SepAt(s, j) { assert !SepAt(s[1..], j - 1); }
        }
        None
      case Some(i) =>
        assert SepAt(s, i + 1) by { assert SepAt(s[1..], i); }
        assert forall j :: 0 < j <= i ==> !SepAt(s, j) by {
          forall j | 0 < j <= i ensures !SepAt(s, j) { assert !SepAt(s[1..], j - 1); }
        }
        Some(i + 1)
  }

  /** The text is nothing but copies of the separator (possibly none). */
  predicate OnlySeparators(t: string)
    decreases |t|
  {
    t == [] || (SepAt(t, 0) && OnlySeparators(t[2..]))
  }

  /** The text before the first separator, or all of t when there is none. */
  function FirstPiece(t: string): string {
    match FindSep(t)
    case None => t
    case Some(j) => t[..j]
  }

  // ---------------------------------------------------------------------
  // String.split(SEGMENT_SEPARATOR)
  // ---------------------------------------------------------------------

  /** Every piece between leftmost, non-overlapping separators, empty ones included. */
  function Pieces(s: string): (r: seq<string>)
    ensures |r| >= 1 && r[0] == FirstPiece(s)
    ensures |r| == 1 <==> !HasSeparator(s)
    ensures forall k :: 0 <= k < |r| ==> !HasSeparator(r[k])
    decreases |s|
  {
    match FindSep(s)
    case None => [s]
    case Some(i) =>
      PrefixBeforeSep(s, i);
      [s[..i]] + Pieces(s[i + 2..])
  }

  /** The text before the leftmost separator holds no separator. */
  lemma PrefixBeforeSep(s: string, i: nat)
    requires i <= |s|
    requires forall j :: 0 <= j < i ==> !SepAt(s, j)
    ensures !HasSeparator(s[..i])
  {
    forall j | 0 <= j < i ensures !SepAt(s[..i], j) {
      assert !SepAt(s, j);
    }
  }

  /** Java's split with limit 0 removes the trailing empty strings. */
  function DropTrailingEmpty(r: seq<string>): (d: seq<string>)
    ensures |d| <= |r| && d == r[..|d|]
    ensures |d| > 0 ==> d[|d| - 1] != ""
    ensures forall k :: |d| <= k < |r| ==> r[k] == ""
    decreases |r|
  {
    if r != [] && r[|r| - 1] == "" then DropTrailingEmpty(r[..|r| - 1]) else r
  }

  /**
   * String.split: the whole string when the separator does not occur;
   * otherwise the pieces without the trailing empty ones.
   */
  function Split(s: string): (r: seq<string>)
    ensures !HasSeparator(s) ==> r == [s]
    ensures |r| <= |Pieces(s)| && r == Pieces(s)[..|r|]
    ensures forall k :: |r| <= k < |Pieces(s)| ==> Pieces(s)[k] == ""
    ensures HasSeparator(s) && |r| > 0 ==> r[|r| - 1] != ""
    ensures forall k :: 0 <= k < |r| ==> !HasSeparator(r[k])
  {
    if FindSep(s).None? then [s] else DropTrailingEmpty(Pieces(s))
  }

  // ---------------------------------------------------------------------
  // The codec
  // ---------------------------------------------------------------------

  /** getSegment: the request text a sender at ipAddress:port sends with a flag. */
  function GetSegment(flag: string, ipAddress: string, port: int): string {
    flag + SEGMENT_SEPARATOR + ipAddress + ":" + IntToDecimal(port)
  }

  /** getFlagFromSegment: substring(0, 3), which throws on a shorter segment. */
  function GetFlagFromSegment(segment: string): (r: Result<string, SegmentError>)
    ensures r.Ok? <==> |segment| >= 3
    ensures r.Ok? ==> |r.value| == 3 && r.value + segment[3..] == segment
    ensures r.Err? ==> r.error == StringIndexOutOfBounds
  {
    if FLAG_END_INDEX <= |segment| then Ok(segment[FLAG_START_INDEX..FLAG_END_INDEX])
    else Err(StringIndexOutOfBounds)
  }

  /**
   * getIPAndPortFromSegment: piece 1 of the split, which throws when there is
   * none; a decoded identity never holds the separator, and needs one in data.
   */
  function GetIPAndPortFromSegment(data: string): (r: Result<string, SegmentError>)
    ensures r.Ok? ==> HasSeparator(data) && !HasSeparator(r.value)
    ensures r.Err? ==> r.error == ArrayIndexOutOfBounds
  {
    var pieces := Split(data);
    if SEGMENT_IP_AND_PORT_INDEX < |pieces| then Ok(pieces[SEGMENT_IP_AND_PORT_INDEX])
    else Err(ArrayIndexOutOfBounds)
  }

  // ---------------------------------------------------------------------
  // Properties
  // ---------------------------------------------------------------------

  /** Every string of the sequence is empty. */
  predicate AllEmpty(ps: seq<string>) {
    forall k :: 0 <= k < |ps| ==> ps[k] == ""
  }

  /** A sequence with a head is all empty when its head and its tail are. */
  lemma AllEmptyCons(x: string, ps: seq<string>)
    ensures AllEmpty([x] + ps) <==> x == "" && AllEmpty(ps)
  {
    if x == "" && AllEmpty(ps) {
      forall k | 0 <= k < |[x] + ps| ensures ([x] + ps)[k] == "" {
        if k > 0 { assert ([x] + ps)[k] == ps[k - 1]; }
      }
    }
    if AllEmpty([x] + ps) {
      assert ([x] + ps)[0] == x;
      forall k | 0 <= k < |ps| ensures ps[k] == "" {
        assert ([x] + ps)[k + 1] == ps[k];
      }
    }
  }

  /** The pieces of t are all empty exactly when t is a run of separators. */
  lemma {:induction false} PiecesAllEmpty(t: string)
    ensures AllEmpty(Pieces(t)) <==> OnlySeparators(t)
    decreases |t|
  {
    var f := FindSep(t);
    if f.None? {
      assert Pieces(t) == [t];
      AllEmptyCons(t, []);
      if t != [] {
        assert !SepAt(t, 0);
      }
    } else {
      var i := f.value;
      var rest := t[i + 2..];
      PiecesAllEmpty(rest);
      assert Pieces(t) == [t[..i]] + Pieces(rest);
      AllEmptyCons(t[..i], Pieces(rest));
      if i == 0 {
        assert t[2..] == rest;
      } else {
        assert !SepAt(t, 0);
        assert |t[..i]| > 0;
      }
    }
  }

  /**
   * What getIPAndPortFromSegment returns: the text between the first separator
   * and the next one (or the end). It throws when there is no separator, or when
   * only separators follow the first one, because split drops trailing empty pieces.
   */
  lemma IPAndPortSpec(s: string)
    ensures GetIPAndPortFromSegment(s).Ok? <==>
              FindSep(s).Some? && !OnlySeparators(s[FindSep(s).value + 2..])
    ensures GetIPAndPortFromSegment(s).Ok? ==>
              GetIPAndPortFromSegment(s).value == FirstPiece(s[FindSep(s).value + 2..])
    ensures GetIPAndPortFromSegment(s).Err? ==> GetIPAndPortFromSegment(s).error == ArrayIndexOutOfBounds
  {
    match FindSep(s)
    case None =>
    case Some(i) =>
      var rest := s[i + 2..];
      var all := Pieces(s);
      assert all == [s[..i]] + Pieces(rest);
      PiecesAllEmpty(rest);
      var d := DropTrailingEmpty(all);
      assert Split(s) == d;
      if OnlySeparators(rest) {
        assert |d| < 2 by {
          assert forall k :: 1 <= k < |all| ==> all[k] == Pieces(rest)[k - 1];
          assert forall k :: 1 <= k < |all| ==> all[k] == "";
        }
      } else {
        var k :| 0 <= k < |Pieces(rest)| && Pieces(rest)[k] != "";
        assert all[k + 1] != "";
        assert |d| >= 2;
        assert d[1] == all[1] == Pieces(rest)[0];
        match FindSep(rest)
        case None =>
        case Some(j) =>
      }
  }

  /** The decimal text of n is a single digit exactly when n is. */
  lemma NatToDecimalSingle(n: nat)
    ensures |NatToDecimal(n)| == 1 <==> n < 10
  {
    if n >= 10 {
      assert |NatToDecimal(n)| == |NatToDecimal(n / 10)| + 1;
    }
  }

  /** Distinct natural numbers have distinct decimal texts. */
  lemma {:induction false} NatToDecimalInjective(a: nat, b: nat)
    requires NatToDecimal(a) == NatToDecimal(b)
    ensures a == b
    decreases a
  {
    NatToDecimalSingle(a);
    NatToDecimalSingle(b);
    if a >= 10 {
      var ra, rb := NatToDecimal(a), NatToDecimal(b);
      assert ra[..|ra| - 1] == NatToDecimal(a / 10);
      assert rb[..|rb| - 1] == NatToDecimal(b / 10);
      NatToDecimalInjective(a / 10, b / 10);
      assert DigitChar(a % 10) == ra[|ra| - 1] == DigitChar(b % 10);
    } else {
      assert DigitChar(a) == DigitChar(b);
    }
  }

  /** Distinct integers have distinct decimal texts (Integer.toString is injective). */
  lemma IntToDecimalInjective(a: int, b: int)
    requires IntToDecimal(a) == IntToDecimal(b)
    ensures a == b
  {
    var r := IntToDecimal(a);
    if a < 0 {
      assert r[1..] == NatToDecimal(-a) == NatToDecimal(-b);
      NatToDecimalInjective(-a, -b);
    } else {
      NatToDecimalInjective(a, b);
    }
  }

  /** A segment produced by getSegment with a three-character flag yields that flag back. */
  lemma FlagRoundTrip(flag: string, ipAddress: string, port: int)
    requires |flag| == 3
    ensures GetFlagFromSegment(GetSegment(flag, ipAddress, port)) == Ok(flag)
  {
    var s := GetSegment(flag, ipAddress, port);
    assert s[..3] == flag;
  }

  /** Separator-free text followed by ':' and a decimal holds no separator. */
  lemma {:induction false} NoSeparatorInAddress(ipAddress: string, port: int)
    requires !HasSeparator(ipAddress)
    ensures !HasSeparator(ipAddress + ":" + IntToDecimal(port))
  {
    var t := ipAddress + ":" + IntToDecimal(port);
    var digits := IntToDecimal(port);
    forall i | 0 <= i < |t| ensures !SepAt(t, i) {
      if i + 1 < |ipAddress| {
        assert !SepAt(ipAddress, i);
      } else if i + 1 == |ipAddress| {
        assert t[i + 1] == ':';
      } else if i == |ipAddress| {
        assert t[i] == ':';
      } else if i + 1 < |t| {
        assert t[i + 1] == digits[i + 1 - |ipAddress| - 1];
        assert IsDigit(t[i + 1]);
      }
    }
  }

  /**
   * When neither the flag nor the address contains the separator, the identity
   * decoded from a segment is the address, ':' and the decimal port.
   */
  lemma IdentityRoundTrip(flag: string, ipAddress: string, port: int)
    requires !HasSeparator(flag) && !HasSeparator(ipAddress)
    ensures GetIPAndPortFromSegment(GetSegment(flag, ipAddress, port)) ==
              Ok(ipAddress + ":" + IntToDecimal(port))
  {
    var s := GetSegment(flag, ipAddress, port);
    var rest := ipAddress + ":" + IntToDecimal(port);
    assert s == flag + SEGMENT_SEPARATOR + rest;
    assert SepAt(s, |flag|);
    forall j | 0 <= j < |flag| ensures !SepAt(s, j) {
      if j + 1 < |flag| {
        assert !SepAt(flag, j);
      } else {
        assert s[j + 1] == '-';
      }
    }
    var i := FindSep(s).value;
    assert i == |flag|;
    assert s[i + 2..] == rest;
    NoSeparatorInAddress(ipAddress, port);
    assert !SepAt(rest, 0);
    assert rest != [];
    IPAndPortSpec(s);
  }

  /** Whenever the identity can be decoded, so can the flag: the segment has at least 3 characters. */
  lemma IdentityDefinedImpliesFlagDefined(s: string)
    requires GetIPAndPortFromSegment(s).Ok?
    ensures GetFlagFromSegment(s).Ok?
  {
    IPAndPortSpec(s);
    var i := FindSep(s).value;
    assert s[i + 2..] != [];
  }

  /** The flag read from a segment does not depend on the sender's address or port. */
  lemma FlagIgnoresIdentity(flag: string, ip1: string, port1: int, ip2: string, port2: int)
    requires |flag| == 3
    ensures GetFlagFromSegment(GetSegment(flag, ip1, port1)) == GetFlagFromSegment(GetSegment(flag, ip2, port2))
  {
    FlagRoundTrip(flag, ip1, port1);
    FlagRoundTrip(flag, ip2, port2);
  }

  /** Text without a '-' holds no separator. */
  lemma NoDashNoSeparator(s: string)
    requires '-' !in s
    ensures !HasSeparator(s)
  {
    forall i | 0 <= i < |s| ensures !SepAt(s, i) {
      assert s[i] in s;
    }
  }

  /** The decimal text of the port of the example segment. */
  lemma ExamplePort()
    ensures IntToDecimal(8888) == "8888"
  {
    assert DigitChar(8) == '8';
    assert NatToDecimal(8) == "8";
    assert NatToDecimal(88) == NatToDecimal(8) + "8";
    assert NatToDecimal(888) == NatToDecimal(88) + "8";
    assert NatToDecimal(8888) == NatToDecimal(888) + "8";
  }

  /** A segment that getSegment built from a separator-free flag and address decodes to both. */
  lemma DecodeBuilt(segment: string, flag: string, ipAddress: string, port: int)
    requires |flag| == 3 && !HasSeparator(flag) && !HasSeparator(ipAddress)
    requires segment == GetSegment(flag, ipAddress, port)
    ensures GetIPAndPortFromSegment(segment) == Ok(ipAddress + ":" + IntToDecimal(port))
    ensures GetFlagFromSegment(segment) == Ok(flag)
  {
    IdentityRoundTrip(flag, ipAddress, port);
    FlagRoundTrip(flag, ipAddress, port);
  }

  /** The segment getSegment builds for the example, and the identity in it. */
  lemma ExampleSegment()
    ensures GetSegment("UDP", "127.0.0.1", 8888) == "UDP->127.0.0.1:8888"
    ensures "127.0.0.1" + ":" + IntToDecimal(8888) == "127.0.0.1:8888"
  {
    ExamplePort();
    assert "UDP" + SEGMENT_SEPARATOR == "UDP->";
    assert "UDP->" + "127.0.0.1" == "UDP->127.0.0.1";
    assert "UDP->127.0.0.1" + ":" == "UDP->127.0.0.1:";
    assert "UDP->127.0.0.1:" + "8888" == "UDP->127.0.0.1:8888";
    assert "127.0.0.1" + ":" + "8888" == "127.0.0.1:8888";
  }

  /** The segment from the comment in the source decodes as expected. */
  lemma DecodeExample()
    ensures GetIPAndPortFromSegment("UDP->127.0.0.1:8888") == Ok("127.0.0.1:8888")
    ensures GetFlagFromSegment("UDP->127.0.0.1:8888") == Ok("UDP")
  {
    ExampleSegment();
    NoDashNoSeparator("UDP");
    NoDashNoSeparator("127.0.0.1");
    DecodeBuilt("UDP->127.0.0.1:8888", "UDP", "127.0.0.1", 8888);
  }

  /** Trailing empty pieces are dropped, leading and inner ones are kept. */
  lemma SplitExamples()
    ensures Split("a->") == ["a"]
    ensures Split("->a") == ["", "a"]
  {
    assert FindSep("a->") == Some(1);
    assert "a->"[..1] == "a" && "a->"[3..] == "";
    assert FindSep("") == None && Pieces("") == [""];
    assert Pieces("a->") == ["a", ""];
    assert FindSep("->a") == Some(0);
    assert "->a"[2..] == "a";
    assert FindSep("a") == None;
    assert Pieces("->a") == ["", "a"];
  }
}
