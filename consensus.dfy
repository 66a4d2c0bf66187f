/** Longest-chain consensus as a left fold over the peers' answers, in the
    order the peers are scanned. The running state is the pair
    (`max_length`, `longest_chain`) of the original loop. */
module Consensus {
  import opened Blocks
  import opened Validity

  /** What asking one peer for its chain produced: the request raised before
      any response arrived, a response with a status other than 200, or a
      200 response carrying the peer's reported length and its chain. */
  datatype PeerResponse =
    | Unreachable
    | NotOk
    | Chain(length: int, chain: seq<Block>)

  /** The scan's running state: the length to beat and the best chain so far. */
  datatype Scan = Scan(maxLength: int, longest: Option<seq<Block>>)

  /** One iteration of the scan. The chain is validated only when the
      reported length beats the running maximum; validating an empty chain
      raises. */
  function ScanStep(h: Hashes, s: Scan, r: PeerResponse): (next: Result<Scan>)
  {
    match r
    case Unreachable => Err(PeerUnreachable)
    case NotOk => Ok(s)
    case Chain(length, chain) =>
      if length <= s.maxLength then Ok(s)
      else if chain == [] then Err(EmptyChain)
      else if ChainValid(h, chain) then Ok(Scan(length, Some(chain)))
      else Ok(s)
  }

  /** The whole scan, stopping at the first error. */
  function ScanAll(h: Hashes, s: Scan, peers: seq<PeerResponse>): (last: Result<Scan>)
    decreases |peers|
  {
    if peers == [] then Ok(s)
    else
      match ScanStep(h, s, peers[0])
      case Err(f) => Err(f)
      case Ok(s1) => ScanAll(h, s1, peers[1..])
  }

  /** The chain to adopt, if any, starting from the local chain's length. */
  function Resolve(h: Hashes, local: seq<Block>, peers: seq<PeerResponse>): (adopted: Result<Option<seq<Block>>>)
  {
    match ScanAll(h, Scan(|local|, None), peers)
    case Err(f) => Err(f)
    case Ok(s) => Ok(s.longest)
  }

  /** The local chain after resolution: the adopted chain, or the old one. */
  function AfterResolve(local: seq<Block>, adopted: Option<seq<Block>>): (chain: seq<Block>)
  {
    match adopted
    case None => local
    case Some(c) => c
  }

  /** A peer answer that the scan would adopt against a running maximum `m`:
      a 200 answer, strictly longer than `m`, with a non-empty valid chain. */
  predicate Qualifies(h: Hashes, r: PeerResponse, m: int)
  {
    r.Chain? && r.length > m && r.chain != [] && ChainValid(h, r.chain)
  }

  ghost predicate AnyQualifies(h: Hashes, peers: seq<PeerResponse>, m: int)
  {
    exists j :: 0 <= j < |peers| && Qualifies(h, peers[j], m)
  }

  /** `peers[i]` qualifies, its reported length is the largest of all
      qualifying answers, every earlier qualifying answer is strictly
      shorter (the first of equally long answers wins), and `c` is its chain. */
  ghost predicate AdoptedAt(h: Hashes, peers: seq<PeerResponse>, m: int, i: int, c: seq<Block>)
  {
    && 0 <= i < |peers|
    && Qualifies(h, peers[i], m)
    && c == peers[i].chain
    && (forall j :: 0 <= j < |peers| && Qualifies(h, peers[j], m) ==> peers[j].length <= peers[i].length)
    && (forall j :: 0 <= j < i && Qualifies(h, peers[j], m) ==> peers[j].length < peers[i].length)
  }

  /** What a scan that finishes without error computes, from any start. */
  lemma {:induction false} ScanFindsFirstLongest(h: Hashes, s: Scan, peers: seq<PeerResponse>)
    requires ScanAll(h, s, peers).Ok?
    ensures forall j :: 0 <= j < |peers| ==> !peers[j].Unreachable?
    ensures ScanAll(h, s, peers).value.maxLength >= s.maxLength
    ensures !AnyQualifies(h, peers, s.maxLength) ==> ScanAll(h, s, peers).value == s
    ensures AnyQualifies(h, peers, s.maxLength) ==>
      var t := ScanAll(h, s, peers).value;
      t.longest.Some? &&
      exists i :: AdoptedAt(h, peers, s.maxLength, i, t.longest.value) && peers[i].length == t.maxLength
    decreases |peers|
  {
    if peers == [] {
      return;
    }
    var m := s.maxLength;
    var r, tail := peers[0], peers[1..];
    var s1 := ScanStep(h, s, r).value;
    var t := ScanAll(h, s1, tail).value;
    assert ScanAll(h, s, peers).value == t;
    ScanFindsFirstLongest(h, s1, tail);
    forall j | 0 <= j < |peers| ensures !peers[j].Unreachable? {
      if j > 0 { assert peers[j] == tail[j - 1]; }
    }
    if Qualifies(h, r, m) {
      assert s1 == Scan(r.length, Some(r.chain));
      if AnyQualifies(h, tail, r.length) {
        var k :| AdoptedAt(h, tail, r.length, k, t.longest.value) && tail[k].length == t.maxLength;
        forall j | 0 <= j < |peers| && Qualifies(h, peers[j], m)
          ensures peers[j].length <= peers[k + 1].length
        {
          if j > 0 { assert peers[j] == tail[j - 1]; }
        }
        forall j | 0 <= j < k + 1 && Qualifies(h, peers[j], m)
          ensures peers[j].length < peers[k + 1].length
        {
          if j > 0 { assert peers[j] == tail[j - 1]; }
        }
        assert AdoptedAt(h, peers, m, k + 1, t.longest.value);
      } else {
        forall j | 0 <= j < |peers| && Qualifies(h, peers[j], m)
          ensures peers[j].length <= peers[0].length
        {
          if j > 0 {
            assert peers[j] == tail[j - 1];
            assert !Qualifies(h, tail[j - 1], r.length);
          }
        }
        assert AdoptedAt(h, peers, m, 0, t.longest.value);
      }
    } else {
      assert s1 == s;
      if AnyQualifies(h, peers, m) {
        var j0 :| 0 <= j0 < |peers| && Qualifies(h, peers[j0], m);
        assert j0 > 0 && Qualifies(h, tail[j0 - 1], m);
        var k :| AdoptedAt(h, tail, m, k, t.longest.value) && tail[k].length == t.maxLength;
        forall j | 0 <= j < |peers| && Qualifies(h, peers[j], m)
          ensures peers[j].length <= peers[k + 1].length
        {
          if j > 0 { assert peers[j] == tail[j - 1]; }
        }
        forall j | 0 <= j < k + 1 && Qualifies(h, peers[j], m)
          ensures peers[j].length < peers[k + 1].length
        {
          if j > 0 { assert peers[j] == tail[j - 1]; }
        }
        assert AdoptedAt(h, peers, m, k + 1, t.longest.value);
      } else {
        assert !AnyQualifies(h, tail, m) by {
          forall j | 0 <= j < |tail| ensures !Qualifies(h, tail[j], m) {
            assert tail[j] == peers[j + 1];
          }
        }
      }
    }
  }

  /** When resolution finishes, a chain is adopted exactly when some peer
      answered with a valid non-empty chain reported longer than the local
      one, and the adopted chain is the first of the longest such answers. */
  lemma ResolveAdoptsFirstLongest(h: Hashes, local: seq<Block>, peers: seq<PeerResponse>)
    requires Resolve(h, local, peers).Ok?
    ensures Resolve(h, local, peers).value.Some? <==> AnyQualifies(h, peers, |local|)
    ensures Resolve(h, local, peers).value.Some? ==>
      exists i :: AdoptedAt(h, peers, |local|, i, Resolve(h, local, peers).value.value)
  {
    ScanFindsFirstLongest(h, Scan(|local|, None), peers);
  }

  /** A scan cannot fail when every peer is reachable and no 200 answer
      reports a length above the start with an empty chain. */
  lemma {:induction false} ScanWithoutFaults(h: Hashes, s: Scan, peers: seq<PeerResponse>)
    requires forall j :: 0 <= j < |peers| ==> !peers[j].Unreachable?
    requires forall j :: 0 <= j < |peers| && peers[j].Chain? && peers[j].length > s.maxLength ==> peers[j].chain != []
    ensures ScanAll(h, s, peers).Ok?
    decreases |peers|
  {
    if peers != [] {
      var s1 := ScanStep(h, s, peers[0]).value;
      assert s1.maxLength >= s.maxLength;
      forall j | 0 <= j < |peers[1..]| && peers[1..][j].Chain? && peers[1..][j].length > s1.maxLength
        ensures peers[1..][j].chain != []
      {
        assert peers[1..][j] == peers[j + 1];
      }
      ScanWithoutFaults(h, s1, peers[1..]);
    }
  }

  /** An answer that can make the scan raise when `m` is the local length. */
  predicate Faulty(r: PeerResponse, m: int)
  {
    r.Unreachable? || (r.Chain? && r.length > m && r.chain == [])
  }

  /** Resolution raises only because of an unreachable peer, or a peer whose
      empty chain is reported longer than the local chain. */
  lemma ResolveFaults(h: Hashes, local: seq<Block>, peers: seq<PeerResponse>)
    requires Resolve(h, local, peers).Err?
    ensures exists j :: 0 <= j < |peers| && Faulty(peers[j], |local|)
  {
    if forall j :: 0 <= j < |peers| ==> !Faulty(peers[j], |local|) {
      ScanWithoutFaults(h, Scan(|local|, None), peers);
    }
  }

  /** Every 200 answer reports the true length of its chain. */
  predicate HonestLengths(peers: seq<PeerResponse>)
  {
    forall j :: 0 <= j < |peers| && peers[j].Chain? ==> peers[j].length == |peers[j].chain|
  }

  /** With honest lengths, resolving a second time against the same answers
      adopts nothing. */
  lemma ResolveIdempotent(h: Hashes, local: seq<Block>, peers: seq<PeerResponse>)
    requires HonestLengths(peers)
    requires Resolve(h, local, peers).Ok?
    ensures Resolve(h, AfterResolve(local, Resolve(h, local, peers).value), peers) == Ok(None)
  {
    var adopted := Resolve(h, local, peers).value;
    var next := AfterResolve(local, adopted);
    ScanFindsFirstLongest(h, Scan(|local|, None), peers);
    ResolveAdoptsFirstLongest(h, local, peers);
    assert |next| >= |local| && !AnyQualifies(h, peers, |next|) by {
      if adopted.Some? {
        var i :| AdoptedAt(h, peers, |local|, i, adopted.value);
        assert |next| == peers[i].length;
        forall j | 0 <= j < |peers| ensures !Qualifies(h, peers[j], |next|) {
          if Qualifies(h, peers[j], |next|) {
            assert Qualifies(h, peers[j], |local|);
          }
        }
      }
    }
    ScanWithoutFaults(h, Scan(|next|, None), peers);
    ScanFindsFirstLongest(h, Scan(|next|, None), peers);
  }

  /** The reported length is trusted: a peer reporting more blocks than it
      sends is adopted again on every resolution. */
  lemma OverreportedLengthAdoptedAgain(h: Hashes, local: seq<Block>, c: seq<Block>, length: int)
    requires c != [] && ChainValid(h, c)
    requires |local| < length && |c| < length
    ensures Resolve(h, local, [Chain(length, c)]) == Ok(Some(c))
    ensures Resolve(h, c, [Chain(length, c)]) == Ok(Some(c))
  {
    var peers := [Chain(length, c)];
    var won := Scan(length, Some(c));
    assert peers[1..] == [];
    assert ScanAll(h, Scan(|local|, None), peers) == ScanAll(h, won, []);
    assert ScanAll(h, Scan(|c|, None), peers) == ScanAll(h, won, []);
  }

  /** Of two equally long qualifying answers, the one scanned first wins, so
      the adopted chain depends on the order of the scan. */
  lemma TieGoesToFirstScanned(h: Hashes, local: seq<Block>, a: seq<Block>, b: seq<Block>, length: int)
    requires a != [] && ChainValid(h, a) && b != [] && ChainValid(h, b)
    requires |local| < length
    ensures Resolve(h, local, [Chain(length, a), Chain(length, b)]) == Ok(Some(a))
    ensures Resolve(h, local, [Chain(length, b), Chain(length, a)]) == Ok(Some(b))
  {
    var ab, ba := [Chain(length, a), Chain(length, b)], [Chain(length, b), Chain(length, a)];
    var wonA, wonB := Scan(length, Some(a)), Scan(length, Some(b));
    assert ab[1..] == [Chain(length, b)] && ba[1..] == [Chain(length, a)];
    assert ScanAll(h, Scan(|local|, None), ab) == ScanAll(h, wonA, ab[1..]) == ScanAll(h, wonA, []);
    assert ScanAll(h, Scan(|local|, None), ba) == ScanAll(h, wonB, ba[1..]) == ScanAll(h, wonB, []);
  }

  /** A local chain of 3 blocks, a peer reporting 5 blocks with an invalid
      chain and a peer reporting 4 blocks with a valid chain: the second is
      adopted. */
  lemma LongerInvalidSkipped(h: Hashes, local: seq<Block>, a: seq<Block>, b: seq<Block>)
    requires |local| == 3
    requires a != [] && !ChainValid(h, a)
    requires b != [] && ChainValid(h, b)
    ensures Resolve(h, local, [Chain(5, a), Chain(4, b)]) == Ok(Some(b))
  {
    var peers := [Chain(5, a), Chain(4, b)];
    var won := Scan(4, Some(b));
    assert peers[1..] == [Chain(4, b)];
    assert ScanAll(h, Scan(3, None), peers) == ScanAll(h, Scan(3, None), peers[1..]);
    assert ScanAll(h, Scan(3, None), peers[1..]) == ScanAll(h, won, []);
  }

  /** An empty chain reported longer than the running maximum raises only if
      no longer valid answer was scanned before it: the order of the scan
      decides between a fault and an adoption. */
  lemma EmptyChainFaultDependsOnOrder(h: Hashes, local: seq<Block>, c: seq<Block>)
    requires |local| == 1
    requires c != [] && ChainValid(h, c)
    ensures Resolve(h, local, [Chain(3, []), Chain(5, c)]) == Err(EmptyChain)
    ensures Resolve(h, local, [Chain(5, c), Chain(3, [])]) == Ok(Some(c))
  {
    var late, early := [Chain(3, []), Chain(5, c)], [Chain(5, c), Chain(3, [])];
    var won := Scan(5, Some(c));
    assert early[1..] == [Chain(3, [])];
    assert ScanAll(h, Scan(1, None), early) == ScanAll(h, won, early[1..]) == ScanAll(h, won, []);
    assert ScanStep(h, Scan(1, None), late[0]) == Err(EmptyChain);
  }
}
