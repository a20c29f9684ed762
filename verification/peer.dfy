/**
 * Peer identity (Peer.java): the host identifier fixed at construction, the
 * optional peer id with its hexadecimal form, the `looksLike` resemblance
 * test, and the two short human-readable renderings.
 *
 * The hex encoder (Torrent.byteArrayToHexString) is not part of this model
 * and is passed in as a function. How the JDK renders an InetAddress with
 * `%s` and with getHostAddress() is carried as two given strings.
 */
module PeerIdentity {
  import opened Common

  type Port = p: int | 0 <= p < 0x1_0000

  /** A socket address: the `%s` rendering of its InetAddress, its IP literal, and its port. */
  datatype Address = Address(text: string, ip: string, port: Port)

  datatype Peer = Peer(
    address: Address,
    hostId: string,
    peerId: Option<Bytes>,
    hexPeerId: Option<string>,
    server: bool)

  // ---------------------------------------------------------------------
  // Decimal rendering of ports (`%d`)

  function DigitChar(d: int): char
    requires 0 <= d < 10
  {
    "0123456789"[d]
  }

  predicate IsDigit(ch: char)
  {
    '0' <= ch <= '9'
  }

  function DigitValue(ch: char): int
    requires IsDigit(ch)
  {
    ch as int - '0' as int
  }

  /** The decimal digits of `n`, most significant first, with no leading zero. */
  function Decimal(n: nat): (s: string)
    ensures 1 <= |s|
    ensures forall i :: 0 <= i < |s| ==> IsDigit(s[i])
    ensures |s| > 1 ==> s[0] != '0'
  {
    if n < 10 then [DigitChar(n)] else Decimal(n / 10) + [DigitChar(n % 10)]
  }

  lemma DigitRoundTrip(d: int)
    requires 0 <= d < 10
    ensures IsDigit(DigitChar(d)) && DigitValue(DigitChar(d)) == d
  {
    var digits := "0123456789";
    assert digits[d] as int == '0' as int + d;
  }

  /** Reads a string of decimal digits back as a number. */
  function ParseDecimal(s: string): nat
    requires forall i :: 0 <= i < |s| ==> IsDigit(s[i])
  {
    if s == [] then 0 else ParseDecimal(s[..|s| - 1]) * 10 + DigitValue(s[|s| - 1])
  }

  /** Rendering a number in decimal and reading it back gives the number. */
  lemma {:induction false} DecimalRoundTrip(n: nat)
    ensures ParseDecimal(Decimal(n)) == n
  {
    var s := Decimal(n);
    if n < 10 {
      DigitRoundTrip(n);
    } else {
      DecimalRoundTrip(n / 10);
      DigitRoundTrip(n % 10);
      assert s[..|s| - 1] == Decimal(n / 10);
      assert s[|s| - 1] == DigitChar(n % 10);
      assert ParseDecimal(s) == n / 10 * 10 + n % 10;
    }
  }

  // ---------------------------------------------------------------------
  // The host identifier

  /** The `"%s:%d"` host identifier of an address. */
  function HostId(a: Address): (h: string)
    ensures |h| > |a.text| + 1 && h[..|a.text|] == a.text && h[|a.text|] == ':'
  {
    a.text + ":" + Decimal(a.port)
  }

  /** The text after the last ':' of `s`. */
  function AfterLastColon(s: string): (t: string)
    ensures |t| <= |s| && t == s[|s| - |t|..]
    ensures forall i :: 0 <= i < |t| ==> t[i] != ':'
    ensures |t| < |s| ==> s[|s| - |t| - 1] == ':'
  {
    if s == [] || s[|s| - 1] == ':' then [] else AfterLastColon(s[..|s| - 1]) + [s[|s| - 1]]
  }

  /** The port can be read back from a host identifier, whatever the address text holds. */
  lemma HostIdNamesPort(a: Address)
    ensures var t := AfterLastColon(HostId(a));
      (forall i :: 0 <= i < |t| ==> IsDigit(t[i])) && ParseDecimal(t) == a.port
  {
    var d := Decimal(a.port);
    var h := HostId(a);
    DigitsAfterLastColon(a.text + ":", d);
    DecimalRoundTrip(a.port);
  }

  /** Colon-free text appended after a ':' is exactly what follows the last ':'. */
  lemma {:induction false} DigitsAfterLastColon(pre: string, d: string)
    requires |pre| > 0 && pre[|pre| - 1] == ':'
    requires forall i :: 0 <= i < |d| ==> IsDigit(d[i])
    ensures AfterLastColon(pre + d) == d
    decreases |d|
  {
    if d == [] {
      assert pre + d == pre;
    } else {
      var s := pre + d;
      assert s[..|s| - 1] == pre + d[..|d| - 1];
      DigitsAfterLastColon(pre, d[..|d| - 1]);
      assert d == d[..|d| - 1] + [d[|d| - 1]];
    }
  }

  /** Two addresses have the same host identifier exactly when their text and port agree. */
  lemma HostIdInjective(a: Address, b: Address)
    ensures HostId(a) == HostId(b) <==> a.text == b.text && a.port == b.port
  {
    var h := HostId(a);
    if h == HostId(b) {
      HostIdNamesPort(a);
      HostIdNamesPort(b);
      assert a.port == b.port;
      var d := Decimal(a.port);
      assert |h| == |a.text| + 1 + |d| == |b.text| + 1 + |d|;
      assert a.text == h[..|a.text|] == b.text;
    }
  }

  // ---------------------------------------------------------------------
  // Construction and the peer id

  /**
   * A peer's fields agree with each other: the host identifier renders its
   * address, and the hex id is present exactly when the id is, as its encoding.
   */
  predicate Valid(p: Peer, hex: Bytes -> string)
  {
    && p.hostId == HostId(p.address)
    && (p.peerId.None? <==> p.hexPeerId.None?)
    && (p.peerId.Some? ==> p.hexPeerId == Some(hex(p.peerId.value)))
  }

  /** setPeerId: a present id is stored with its hex encoding; an absent one clears both. */
  function SetPeerId(p: Peer, id: Option<Bytes>, hex: Bytes -> string): (p': Peer)
    ensures p'.peerId == id
    ensures p'.address == p.address && p'.hostId == p.hostId && p'.server == p.server
    ensures p.hostId == HostId(p.address) ==> Valid(p', hex)
  {
    match id
    case Some(bytes) => p.(peerId := id, hexPeerId := Some(hex(bytes)))
    case None => p.(peerId := None, hexPeerId := None)
  }

  /** hasPeerId */
  function HasPeerId(p: Peer): (b: bool)
    ensures b <==> p.peerId.Some?
  {
    p.peerId.Some?
  }

  /** The constructor: the host identifier is fixed from the address, then the id is set. */
  function NewPeer(address: Address, id: Option<Bytes>, server: bool, hex: Bytes -> string): (p: Peer)
    ensures Valid(p, hex)
    ensures p.address == address && p.peerId == id && p.server == server
  {
    SetPeerId(Peer(address, HostId(address), None, None, server), id, hex)
  }

  /** Setting or clearing the id never changes the host identifier, and the hex id tracks the id. */
  lemma {:induction false} SetPeerIdKeepsHostId(address: Address, ids: seq<Option<Bytes>>, server: bool, hex: Bytes -> string)
    ensures var p := SetAll(NewPeer(address, None, server, hex), ids, hex);
      && Valid(p, hex) && p.hostId == HostId(address)
      && (HasPeerId(p) <==> ids != [] && ids[|ids| - 1].Some?)
    decreases |ids|
  {
    if ids != [] {
      SetPeerIdKeepsHostId(address, ids[..|ids| - 1], server, hex);
    }
  }

  /** A run of setPeerId calls, in order. */
  function SetAll(p: Peer, ids: seq<Option<Bytes>>, hex: Bytes -> string): Peer
    decreases |ids|
  {
    if ids == [] then p else SetPeerId(SetAll(p, ids[..|ids| - 1], hex), ids[|ids| - 1], hex)
  }

  // ---------------------------------------------------------------------
  // looksLike

  /**
   * looksLike: false for a missing peer; otherwise the host identifiers are
   * equal and, when this peer has an id, the other's hex id equals its own.
   */
  predicate LooksLike(p: Peer, other: Option<Peer>)
  {
    && other.Some?
    && p.hostId == other.value.hostId
    && (HasPeerId(p) ==> p.hexPeerId == other.value.hexPeerId)
  }

  /** Every consistent peer looks like itself. */
  lemma LooksLikeReflexive(p: Peer, hex: Bytes -> string)
    requires Valid(p, hex)
    ensures LooksLike(p, Some(p))
  {
  }

  /** Resemblance chains: if a looks like b and b like c, then a looks like c. */
  lemma LooksLikeTransitive(a: Peer, b: Peer, c: Peer, hex: Bytes -> string)
    requires Valid(a, hex) && Valid(b, hex)
    requires LooksLike(a, Some(b)) && LooksLike(b, Some(c))
    ensures LooksLike(a, Some(c))
  {
  }

  /**
   * Resemblance is not symmetric: a peer with no id yet looks like a peer at
   * the same address that has one, but not the other way round.
   */
  lemma LooksLikeAsymmetric(address: Address, id: Bytes, hex: Bytes -> string)
    ensures var anon := NewPeer(address, None, false, hex);
      var known := NewPeer(address, Some(id), false, hex);
      LooksLike(anon, Some(known)) && !LooksLike(known, Some(anon))
  {
  }

  /**
   * Resemblance as a relation on consistent peers: same address text and
   * port, and the same id whenever this peer has one.
   */
  lemma LooksLikeMeansSameEndpoint(p: Peer, q: Peer, hex: Bytes -> string)
    requires Valid(p, hex) && Valid(q, hex)
    ensures LooksLike(p, Some(q)) ==> p.address.text == q.address.text && p.address.port == q.address.port
    ensures p.address.text == q.address.text && p.address.port == q.address.port && p.peerId.None? ==> LooksLike(p, Some(q))
    ensures LooksLike(p, Some(q)) && p.peerId.Some? ==> q.peerId.Some? && hex(p.peerId.value) == hex(q.peerId.value)
  {
    HostIdInjective(p.address, q.address);
  }

  // ---------------------------------------------------------------------
  // Short renderings

  /** ASCII upper-casing of one character. */
  function Upper(ch: char): char
  {
    if 'a' <= ch <= 'z' then (ch as int - 32) as char else ch
  }

  function UpperAll(s: string): (r: string)
    ensures |r| == |s| && forall i :: 0 <= i < |s| ==> r[i] == Upper(s[i])
  {
    if s == [] then [] else [Upper(s[0])] + UpperAll(s[1..])
  }

  /** No character of `s` is an upper-case ASCII letter. */
  predicate NoUpper(s: string)
  {
    forall i :: 0 <= i < |s| ==> !('A' <= s[i] <= 'Z')
  }

  /** No character of `s` is a lower-case ASCII letter. */
  predicate NoLower(s: string)
  {
    forall i :: 0 <= i < |s| ==> !('a' <= s[i] <= 'z')
  }

  /** Two strings written in the same letter case: neither holds an upper-case letter, or neither a lower-case one. */
  predicate SameCase(a: string, b: string)
  {
    (NoUpper(a) && NoUpper(b)) || (NoLower(a) && NoLower(b))
  }

  /** Upper-casing is one-to-one on characters of the same case. */
  lemma UpperInjective(x: char, y: char)
    requires (!('A' <= x <= 'Z') && !('A' <= y <= 'Z')) || (!('a' <= x <= 'z') && !('a' <= y <= 'z'))
    requires Upper(x) == Upper(y)
    ensures x == y
  {
  }

  /** The last six characters of a string, or an index failure when it is shorter. */
  function LastSix(s: string): (r: Result<string>)
    ensures r.Ok? <==> |s| >= 6
    ensures r.Ok? ==> |r.value| == 6 && s == s[..|s| - 6] + r.value
    ensures r.Thrown? ==> r.cause == IndexOutOfBounds
  {
    if |s| < 6 then Thrown(IndexOutOfBounds) else Ok(s[|s| - 6..])
  }

  /**
   * getShortHexPeerId: ".." and the upper-cased last six hex characters. A
   * peer with no id fails on the null hex id; a hex id shorter than six
   * characters fails on the substring.
   */
  function ShortHexPeerId(p: Peer): (r: Result<string>)
    ensures p.hexPeerId.None? ==> r == Thrown(NullPointer)
    ensures p.hexPeerId.Some? ==> (r.Ok? <==> |p.hexPeerId.value| >= 6)
    ensures r.Ok? ==> |r.value| == 8 && r.value[..2] == ".."
    ensures r.Ok? ==> var h := p.hexPeerId.value;
      forall i :: 2 <= i < 8 ==> r.value[i] == Upper(h[|h| - 8 + i])
  {
    match p.hexPeerId
    case None => Thrown(NullPointer)
    case Some(h) =>
      match LastSix(h)
      case Thrown(e) => Thrown(e)
      case Ok(six) => Ok(".." + UpperAll(six))
  }

  /**
   * For hex ids written in one letter case, two short ids agree exactly when
   * the last six characters of the hex ids agree: upper-casing loses nothing.
   */
  lemma ShortHexPeerIdsAgree(p: Peer, q: Peer)
    requires p.hexPeerId.Some? && q.hexPeerId.Some?
    requires SameCase(p.hexPeerId.value, q.hexPeerId.value)
    requires |p.hexPeerId.value| >= 6 && |q.hexPeerId.value| >= 6
    ensures ShortHexPeerId(p) == ShortHexPeerId(q) <==> LastSix(p.hexPeerId.value) == LastSix(q.hexPeerId.value)
  {
    var hp := p.hexPeerId.value;
    var hq := q.hexPeerId.value;
    var a := LastSix(hp).value;
    var b := LastSix(hq).value;
    if ShortHexPeerId(p) == ShortHexPeerId(q) {
      assert UpperAll(a) == ShortHexPeerId(p).value[2..];
      forall i | 0 <= i < 6 ensures a[i] == b[i] {
        assert a[i] == hp[|hp| - 6 + i];
        assert b[i] == hq[|hq| - 6 + i];
        UpperInjective(a[i], b[i]);
      }
      assert a == b;
    }
  }

  /**
   * toString: "peer://", the IP, ":", the port, "/", then the last six hex
   * characters of the id, or "?" when there is none.
   */
  function ToString(p: Peer): (r: Result<string>)
    ensures HasPeerId(p) && p.hexPeerId.None? ==> r == Thrown(NullPointer)
    ensures !HasPeerId(p) ==> r.Ok?
    ensures HasPeerId(p) && p.hexPeerId.Some? ==> (r.Ok? <==> |p.hexPeerId.value| >= 6)
    ensures r.Thrown? ==> HasPeerId(p)
  {
    var head := "peer://" + p.address.ip + ":" + Decimal(p.address.port) + "/";
    if !HasPeerId(p) then Ok(head + "?")
    else if p.hexPeerId.None? then Thrown(NullPointer)
    else
      match LastSix(p.hexPeerId.value)
      case Thrown(e) => Thrown(e)
      case Ok(six) => Ok(head + six)
  }

  /**
   * A consistent peer whose hex id, if any, has six characters renders as
   * "peer://", the IP it was built from, ":", its port, "/", and then the
   * last six characters of its id's hex encoding, or "?" when it has no id.
   */
  lemma ToStringShowsIdentity(p: Peer, hex: Bytes -> string)
    requires Valid(p, hex)
    requires p.peerId.Some? ==> |hex(p.peerId.value)| >= 6
    ensures ToString(p).Ok?
    ensures var s := ToString(p).value;
      var head := "peer://" + p.address.ip + ":" + Decimal(p.address.port) + "/";
      && |s| > |head| && s[..|head|] == head
      && (p.peerId.None? ==> s[|head|..] == "?")
      && (p.peerId.Some? ==> var h := hex(p.peerId.value); s[|head|..] == h[|h| - 6..])
  {
  }
}
