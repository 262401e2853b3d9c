/** The small pure helpers of the client: address validation, splitting a
    peer address, converting siacoins to hastings, and the renter's file
    lookups. */
module Helpers {
  import opened Wrappers

  /** The exceptions the client throws. `QueryFailed` stands for both
      database messages: the failed prepare of an insert (class.sia.php:620)
      and of a select (class.sia.php:657). */
  datatype Error =
    | InvalidAddress   // 'Invalid address'
    | WalletLocked     // 'Wallet is locked'
    | QueryFailed      // 'Could not query sia database.' (insert) / 'Could not query database.' (select)
    | InsertFailed     // 'Failed to insert entry in sia table'
    | NoTransactions   // 'No transactions found'

  /** Sia addresses are 76 characters long. */
  const AddressLength := 76

  /** A character `ctype_alnum` accepts in the C locale. */
  predicate IsAlnum(c: char)
  {
    'a' <= c <= 'z' || 'A' <= c <= 'Z' || '0' <= c <= '9'
  }

  /** PHP's `ctype_alnum` on a string: false on the empty string, otherwise
      whether every character is a letter or a digit. */
  function CtypeAlnum(s: string): (r: bool)
    ensures r <==> |s| > 0 && forall i :: 0 <= i < |s| ==> IsAlnum(s[i])
  {
    if |s| <= 1 then |s| == 1 && IsAlnum(s[0])
    else IsAlnum(s[0]) && CtypeAlnum(s[1..])
  }

  /** `is_valid_address`: alphanumeric and exactly 76 characters long. */
  function IsValidAddress(address: string): (r: bool)
    ensures r <==> |address| == AddressLength && forall i :: 0 <= i < |address| ==> IsAlnum(address[i])
  {
    CtypeAlnum(address) && |address| == AddressLength
  }

  /** The port part of a peer address: the default number, or the text that
      followed the colon. */
  datatype Port = Number(n: int) | AfterColon(s: string)

  const DefaultPeerPort := 9981

  datatype PeerAddress = PeerAddress(ip: string, port: Port)

  /** PHP's `strpos($s, ':')`: the index of the first colon, if there is one. */
  function FirstColon(s: string): (r: Option<nat>)
    ensures r.None? <==> ':' !in s
    ensures r.Some? ==> r.value < |s| && s[r.value] == ':' && ':' !in s[..r.value]
  {
    if s == [] then None
    else if s[0] == ':' then Some(0)
    else
      match FirstColon(s[1..])
      case None => None
      case Some(k) =>
        assert s[..k + 1] == [s[0]] + s[1..][..k];
        Some(k + 1)
  }

  /** `get_peer_address_parts`: split at the first colon. `empty($pos)` holds
      both when there is no colon and when it stands first, and then the whole
      string is the ip and the port is 9981. */
  function PeerAddressParts(address: string): (r: PeerAddress)
    ensures ':' !in address || address[0] == ':' ==> r == PeerAddress(address, Number(DefaultPeerPort))
    ensures ':' in address && address[0] != ':' ==>
      && r.port.AfterColon?
      && r.ip != [] && ':' !in r.ip
      && r.ip + [':'] + r.port.s == address
  {
    match FirstColon(address)
    case None => PeerAddress(address, Number(DefaultPeerPort))
    case Some(pos) =>
      if pos == 0 then PeerAddress(address, Number(DefaultPeerPort))
      else
        assert address == address[..pos] + [':'] + address[pos + 1..];
        PeerAddress(address[..pos], AfterColon(address[pos + 1..]))
  }

  /** Splitting `ip:port` with a colon-free, non-empty ip gives back its parts. */
  lemma PeerAddressRoundTrip(ip: string, port: string)
    requires ip != [] && ':' !in ip
    ensures PeerAddressParts(ip + [':'] + port) == PeerAddress(ip, AfterColon(port))
  {
    var a := ip + [':'] + port;
    assert a[|ip|] == ':';
    assert a[..|ip|] == ip;
    var r := PeerAddressParts(a);
    assert r.ip + [':'] + r.port.s == a;
    assert ':' in a && a[0] != ':';
    assert |r.ip| == |ip|;
    assert r.ip == a[..|ip|];
    assert r.port.s == a[|ip| + 1..];
  }

  /** A decimal siacoin amount as bcmath reads it: `digits` × 10^-`scale`. */
  datatype Decimal = Decimal(digits: int, scale: nat)

  function Pow10(n: nat): (r: nat)
    ensures r > 0
  {
    if n == 0 then 1 else 10 * Pow10(n - 1)
  }

  /** One siacoin is 10^24 hastings. */
  const HastingsPerSiacoin: nat := Pow10(24)

  function Abs(x: int): nat
  {
    if x < 0 then -x else x
  }

  /** `sc_to_hastings` of class.sia.php: `bcmul($siacoins, 10^24)` at bcmath's
      default scale 0, i.e. the exact product truncated toward zero. */
  function ScToHastings(d: Decimal): (r: int)
    ensures Abs(r) * Pow10(d.scale) <= Abs(d.digits) * HastingsPerSiacoin
                                     < Abs(r) * Pow10(d.scale) + Pow10(d.scale)
    ensures d.digits >= 0 ==> r >= 0
    ensures d.digits <= 0 ==> r <= 0
  {
    var q := Abs(d.digits) * HastingsPerSiacoin / Pow10(d.scale);
    DivBounds(Abs(d.digits) * HastingsPerSiacoin, Pow10(d.scale));
    if d.digits >= 0 then q else -q
  }

  lemma DivBounds(p: nat, k: nat)
    requires k > 0
    ensures (p / k) * k <= p < (p / k) * k + k
  {
  }

  lemma MulMono(a: nat, b: nat, m: nat)
    requires a <= b
    ensures a * m <= b * m
  {
  }

  lemma MulAssoc(a: int, b: int, c: int)
    ensures a * (b * c) == (a * b) * c
  {
  }

  lemma MultipleDiv(k: nat, m: nat)
    requires m > 0
    ensures k * m / m == k
  {
    DivBounds(k * m, m);
    var q := k * m / m;
    if q < k {
      MulMono(q + 1, k, m);
    }
  }

  lemma {:induction false} Pow10Add(a: nat, b: nat)
    ensures Pow10(a + b) == Pow10(a) * Pow10(b)
    decreases a
  {
    if a > 0 {
      Pow10Add(a - 1, b);
    }
  }

  lemma NegMul(x: int, y: int)
    ensures (-x) * y == -(x * y)
  {
  }

  /** With at most 24 decimals the conversion loses nothing. */
  lemma ScToHastingsExact(d: Decimal)
    requires d.scale <= 24
    ensures ScToHastings(d) * Pow10(d.scale) == d.digits * HastingsPerSiacoin
  {
    var a := Abs(d.digits);
    var n := Pow10(d.scale);
    var k := a * Pow10(24 - d.scale);
    assert a * HastingsPerSiacoin == k * n by {
      Pow10Add(24 - d.scale, d.scale);
      MulAssoc(a, Pow10(24 - d.scale), n);
    }
    assert a * HastingsPerSiacoin / n == k by {
      MultipleDiv(k, n);
    }
    if d.digits < 0 {
      assert ScToHastings(d) == -k;
      NegMul(k, n);
      NegMul(a, HastingsPerSiacoin);
    }
  }

  /** A positive amount with at most 24 decimals converts to a positive
      number of hastings. */
  lemma PositiveAmountPositiveHastings(d: Decimal)
    requires d.digits > 0 && d.scale <= 24
    ensures ScToHastings(d) > 0
  {
    ScToHastingsExact(d);
  }

  /** A file the renter lists; `siapath` names it. */
  datatype RenterFileInfo = RenterFileInfo(siapath: string, filesize: int)

  /** `renter_check_siapath`: whether some listed file has this siapath. */
  function RenterCheckSiapath(files: seq<RenterFileInfo>, siapath: string): (r: bool)
    ensures r <==> exists i :: 0 <= i < |files| && files[i].siapath == siapath
  {
    if files == [] then false
    else files[0].siapath == siapath || RenterCheckSiapath(files[1..], siapath)
  }

  /** `renter_file`: the first listed file with this siapath, or nothing (the
      source returns 0). */
  function RenterFile(files: seq<RenterFileInfo>, siapath: string): (r: Option<RenterFileInfo>)
    ensures r.None? <==> !RenterCheckSiapath(files, siapath)
    ensures r.Some? ==> exists i :: 0 <= i < |files| && files[i] == r.value && r.value.siapath == siapath
                                    && forall j :: 0 <= j < i ==> files[j].siapath != siapath
  {
    if files == [] then None
    else if files[0].siapath == siapath then Some(files[0])
    else
      var r := RenterFile(files[1..], siapath);
      if r.Some? then
        ghost var i :| 0 <= i < |files[1..]| && files[1..][i] == r.value && r.value.siapath == siapath
                        && forall j :: 0 <= j < i ==> files[1..][j].siapath != siapath;
        assert files[i + 1] == r.value;
        r
      else r
  }
}
