// Checkpoint claims, and the chain a transparency service registers.

module Claims {
  import opened Wrappers
  import opened Powers
  import opened Positions
  import opened PositionSpec
  import opened Forest
  import opened Accumulators
  import opened Digests
  import opened Consistency
  import opened ProfileConsistency
  import ProfilePositions

  const KIND := "cll-checkpoint"

  /** A claim of a decoded map: missing, of another type, or a value. */
  datatype Claim<T> = Missing | OtherType | Value(value: T)

  /** A byte string cut into 32-byte digests, or one whose length is no multiple of 32. */
  datatype Octets = Whole(digests: seq<Hash>) | Ragged

  /** `[tree-size-1, tree-size-2, consistency-paths, right-peaks]`. */
  datatype ProofContent = ProofContent(size1: int, size2: int, paths: seq<seq<WireHash>>, right: seq<WireHash>)

  /** A proof byte string: one that the decoder refuses, with its code; one of another shape; or a proof. */
  datatype ProofBytes = Undecodable(code: string) | OtherShape | Content(content: ProofContent)

  /** The claims of one checkpoint. */
  datatype Checkpoint = Checkpoint(
    kind: string,
    logSize: Claim<int>, prevSize: Claim<int>,
    commitment: Claim<Octets>, prevCommitment: Claim<Octets>,
    issuedAt: Claim<string>,
    leafCount: Claim<int>,
    consistencyProof: Claim<ProofBytes>)

  /** A well-formed proof that the accumulator of `prev` leads to the one of `size`. */
  ghost predicate ProofPasses(content: ProofContent, prev: nat, size: nat, pc: seq<Hash>, c: seq<Hash>) {
    && content.size1 == prev && content.size2 == size
    && ParseAll(content.paths).Some? && Parse(content.right).Some?
    && AccumulatorFor(prev, size, pc, ParseAll(content.paths).value, Parse(content.right).value) == Some(c)
  }

  /** What a verifier demands of one checkpoint alone. */
  ghost predicate Passes(m: Checkpoint) {
    && m.kind == KIND
    && m.logSize.Value? && m.prevSize.Value? && 0 <= m.prevSize.value <= m.logSize.value
    && m.commitment.Value? && m.commitment.value.Whole?
    && m.prevCommitment.Value? && m.prevCommitment.value.Whole?
    && m.issuedAt.Value?
    && Complete(m.logSize.value) && Complete(m.prevSize.value)
    && |m.commitment.value.digests| == Ones(LeafFloor(m.logSize.value))
    && |m.prevCommitment.value.digests| == Ones(LeafFloor(m.prevSize.value))
    && (m.leafCount.Missing? || m.leafCount == Value(LeafFloor(m.logSize.value)))
    && (if m.prevSize.value == 0 || m.prevSize.value == m.logSize.value then
          && m.consistencyProof.Missing?
          && (m.prevSize.value == m.logSize.value ==> m.commitment == m.prevCommitment)
        else
          && m.consistencyProof.Value? && m.consistencyProof.value.Content?
          && ProofPasses(m.consistencyProof.value.content, m.prevSize.value, m.logSize.value,
                         m.prevCommitment.value.digests, m.commitment.value.digests))
  }

  method PeakCount(size: nat) returns (n: nat)
    ensures n == Ones(LeafFloor(size))
  {
    hide LeafFloor;
    if size == 0 {
      NothingLeft(0);
      return 0;
    }
    var f := ProfilePositions.LeafCount(size - 1);
    return Ones(f);
  }

  /** A claim that must be a natural number. */
  predicate IsSize(c: Claim<int>) {
    c.Value? && c.value >= 0
  }

  /** The codes of the checks on the claims alone, in the order of the checks. */
  ghost function ClaimFailure(m: Checkpoint): Option<string> {
    if m.kind != KIND then Some("kind")
    else if !IsSize(m.logSize) || !IsSize(m.prevSize) then Some("claim-type")
    else if !m.commitment.Value? || !m.prevCommitment.Value? || !m.issuedAt.Value? then Some("claim-type")
    else if !Complete(m.logSize.value) || !Complete(m.prevSize.value) then Some("size-incomplete")
    else if m.prevSize.value > m.logSize.value then Some("size-decreased")
    else if !HasLength(m.commitment.value, m.logSize.value) then Some("commitment-length")
    else if !HasLength(m.prevCommitment.value, m.prevSize.value) then Some("prev-commitment-length")
    else if !m.leafCount.Missing? && !IsSize(m.leafCount) then Some("claim-type")
    else if !m.leafCount.Missing? && m.leafCount.value != LeafFloor(m.logSize.value) then Some("leaf-count-mismatch")
    else None
  }

  /** A commitment of as many digests as an MMR of this size has peaks. */
  ghost predicate HasLength(c: Octets, size: nat) {
    c.Whole? && |c.digests| == Ones(LeafFloor(size))
  }

  /** The codes of the checks on the proof, for claims that pass the checks before them. */
  ghost function ProofFailure(m: Checkpoint): Option<string>
    requires ClaimFailure(m).None?
  {
    var prev, size := m.prevSize.value, m.logSize.value;
    if prev == 0 || prev == size then
      if !m.consistencyProof.Missing? then Some("proof-unexpected")
      else if prev == size && m.commitment != m.prevCommitment then Some("commitment-changed-without-growth")
      else None
    else if m.consistencyProof.Missing? then Some("proof-missing")
    else if m.consistencyProof.OtherType? then Some("proof-not-profile-encoding")
    else if m.consistencyProof.value.Undecodable? then Some(m.consistencyProof.value.code)
    else if m.consistencyProof.value.OtherShape? then Some("proof-not-profile-encoding")
    else
      var content := m.consistencyProof.value.content;
      if content.size1 != prev || content.size2 != size then Some("proof-sizes")
      else if !ProofPasses(content, prev, size, m.prevCommitment.value.digests, m.commitment.value.digests)
      then Some("proof-invalid")
      else None
  }

  /** The code of the first check that fails. */
  ghost function FirstFailure(m: Checkpoint): Option<string> {
    if ClaimFailure(m).Some? then ClaimFailure(m) else ProofFailure(m)
  }

  /** No check fails exactly when the checkpoint passes. */
  lemma NoFailure(m: Checkpoint)
    ensures FirstFailure(m).None? <==> Passes(m)
  {
    hide NodeCount, LeafFloor, Complete, Ones, AccumulatorFor;
  }

  /** A commitment of exactly the peaks of an MMR of `size` nodes, by leaf count. */
  ghost predicate FitsSize(c: Octets, size: nat) {
    exists f: nat :: NodeCount(f) == size && c.Whole? && |c.digests| == Ones(f)
  }

  /** Which check fails first: each code, given that the checks before it pass. */
  lemma FailureExact(m: Checkpoint)
    ensures var r := FirstFailure(m);
            var typed := && m.logSize.Value? && m.logSize.value >= 0 && m.prevSize.Value? && m.prevSize.value >= 0
                         && m.commitment.Value? && m.prevCommitment.Value? && m.issuedAt.Value?;
            && (m.kind != "cll-checkpoint" ==> r == Some("kind"))
            && (m.kind == "cll-checkpoint" && !typed ==> r == Some("claim-type"))
            && (m.kind == "cll-checkpoint" && typed ==>
                  var size, prev := m.logSize.value, m.prevSize.value;
                  var whole := (exists f: nat :: NodeCount(f) == size) && exists f: nat :: NodeCount(f) == prev;
                  var fits, prevFits := FitsSize(m.commitment.value, size), FitsSize(m.prevCommitment.value, prev);
                  var number := m.leafCount.Value? && m.leafCount.value >= 0;
                  var counts := m.leafCount.Missing? || (number && NodeCount(m.leafCount.value) == size);
                  && (!whole ==> r == Some("size-incomplete"))
                  && (whole && prev > size ==> r == Some("size-decreased"))
                  && (whole && prev <= size && !fits ==> r == Some("commitment-length"))
                  && (whole && prev <= size && fits && !prevFits ==> r == Some("prev-commitment-length"))
                  && (whole && prev <= size && fits && prevFits && !counts ==>
                        r == Some(if number then "leaf-count-mismatch" else "claim-type"))
                  && (whole && prev <= size && fits && prevFits && counts ==> ProofCode(m, prev, size, r)))
  {
    hide NodeCount, LeafFloor, Complete, Ones, AccumulatorFor, ParseAll, Parse;
    if m.logSize.Value? && m.logSize.value >= 0 && m.prevSize.Value? && m.prevSize.value >= 0 {
      var size, prev := m.logSize.value, m.prevSize.value;
      CompleteIff(size);
      CompleteIff(prev);
      FloorIs(size);
      FloorIs(prev);
      if m.leafCount.Value? && m.leafCount.value >= 0 {
        LeafFloorOfCount(m.leafCount.value);
      }
    }
  }

  lemma FloorIs(size: nat)
    ensures forall f: nat :: NodeCount(f) == size ==> LeafFloor(size) == f
    ensures Complete(size) ==> NodeCount(LeafFloor(size)) == size
  {
    hide NodeCount, LeafFloor;
    forall f: nat | NodeCount(f) == size
      ensures LeafFloor(size) == f
    {
      LeafFloorOfCount(f);
    }
  }

  /** The codes about the proof, when all claims fit. */
  ghost predicate ProofCode(m: Checkpoint, prev: nat, size: nat, r: Option<string>)
    requires m.commitment.Value? && m.commitment.value.Whole?
    requires m.prevCommitment.Value? && m.prevCommitment.value.Whole?
  {
    var has := m.consistencyProof != Missing;
    if prev == 0 || prev == size then
      && (has ==> r == Some("proof-unexpected"))
      && (!has ==> r == if prev == size && m.commitment != m.prevCommitment
                        then Some("commitment-changed-without-growth") else None)
    else
      && (!has ==> r == Some("proof-missing"))
      && (has ==>
            match m.consistencyProof
            case Value(Undecodable(code)) => r == Some(code)
            case Value(Content(p)) =>
              && (p.size1 != prev ==> r == Some("proof-sizes"))
              && (p.size2 != size ==> r == Some("proof-sizes"))
              && (p.size1 == prev && p.size2 == size ==> r == None || r == Some("proof-invalid"))
            case _ => r == Some("proof-not-profile-encoding"))
  }

  /** `check_claims`: the code of the first check that fails, or none. */
  method CheckClaims(m: Checkpoint) returns (error: Option<string>)
    ensures error == FirstFailure(m)
    ensures error.None? <==> Passes(m)
  {
    hide NodeCount, LeafFloor, Complete, Ones, AccumulatorFor, Passes;
    NoFailure(m);
    if m.kind != KIND {
      return Some("kind");
    }
    if !m.logSize.Value? || m.logSize.value < 0 || !m.prevSize.Value? || m.prevSize.value < 0 {
      return Some("claim-type");
    }
    var logSize: nat, prevSize: nat := m.logSize.value, m.prevSize.value;
    if !m.commitment.Value? || !m.prevCommitment.Value? || !m.issuedAt.Value? {
      return Some("claim-type");
    }
    var c, pc := m.commitment.value, m.prevCommitment.value;
    var logComplete := ProfilePositions.IsComplete(logSize);
    if !logComplete {
      return Some("size-incomplete");
    }
    var prevComplete := ProfilePositions.IsComplete(prevSize);
    if !prevComplete {
      return Some("size-incomplete");
    }
    if prevSize > logSize {
      return Some("size-decreased");
    }
    var peaks := PeakCount(logSize);
    if c.Ragged? || |c.digests| != peaks {
      return Some("commitment-length");
    }
    var prevPeaks := PeakCount(prevSize);
    if pc.Ragged? || |pc.digests| != prevPeaks {
      return Some("prev-commitment-length");
    }
    if !m.leafCount.Missing? {
      if m.leafCount.OtherType? || m.leafCount.value < 0 {
        return Some("claim-type");
      }
      NothingLeft(0);
      var lc := 0;
      if logSize > 0 {
        lc := ProfilePositions.LeafCount(logSize - 1);
      }
      if m.leafCount.value != lc {
        return Some("leaf-count-mismatch");
      }
    }
    var hasProof := !m.consistencyProof.Missing?;
    if prevSize == 0 || prevSize == logSize {
      if hasProof {
        return Some("proof-unexpected");
      }
      if prevSize == logSize && c != pc {
        return Some("commitment-changed-without-growth");
      }
      return None;
    }
    if !hasProof {
      return Some("proof-missing");
    }
    if m.consistencyProof.OtherType? {
      return Some("proof-not-profile-encoding");
    }
    if m.consistencyProof.value.Undecodable? {
      return Some(m.consistencyProof.value.code);
    }
    if m.consistencyProof.value.OtherShape? {
      return Some("proof-not-profile-encoding");
    }
    var content := m.consistencyProof.value.content;
    if content.size1 != prevSize || content.size2 != logSize {
      return Some("proof-sizes");
    }
    var paths, right := ParseAll(content.paths), Parse(content.right);
    if paths.None? || right.None? {
      return Some("proof-invalid");
    }
    var acc := VerifyAccumulator(prevSize, pc.digests, prevSize, logSize, paths.value, right.value);
    if acc.Err? || acc.value != c.digests {
      return Some("proof-invalid");
    }
    return None;
  }

  // ---- the chain ----------------------------------------------------------------

  /** The issuer and subject of a log. */
  type Identity = (string, string)

  /** What was last registered for a log: its size and commitment. */
  datatype Registered = Registered(size: int, commitment: Octets)

  /** `registration_continuity`: "first-seen", "continuous", or refused. */
  method RegistrationContinuity(identity: Identity, m: Checkpoint, registered: map<Identity, Registered>)
    returns (r: Result<string, string>)
    requires m.prevSize.Value? && m.prevCommitment.Value?
    ensures r.Ok? <==> Continues(identity, m, registered)
    ensures r == Ok("first-seen") <==> identity !in registered
  {
    if identity !in registered {
      return Ok("first-seen");
    }
    if Registered(m.prevSize.value, m.prevCommitment.value) != registered[identity] {
      return Err("not-continuous");
    }
    return Ok("continuous");
  }

  predicate Continues(identity: Identity, m: Checkpoint, registered: map<Identity, Registered>) {
    && m.prevSize.Value? && m.prevCommitment.Value?
    && (identity in registered ==>
          registered[identity] == Registered(m.prevSize.value, m.prevCommitment.value))
  }

  /** A submission to the service: a log identity and verified claims. */
  datatype Submission = Submission(identity: Identity, claims: Checkpoint)

  /** What a submission registers; nothing when it is refused. */
  ghost function Registers(s: Submission, before: map<Identity, Registered>): Option<Registered> {
    if Passes(s.claims) && Continues(s.identity, s.claims, before)
    then Some(Registered(s.claims.logSize.value, s.claims.commitment.value))
    else None
  }

  /** The service's registrations after a run of submissions; what is refused changes nothing. */
  ghost function After(run: seq<Submission>): map<Identity, Registered> {
    if run == [] then map[]
    else
      var before, s := After(run[..|run| - 1]), run[|run| - 1];
      match Registers(s, before)
      case Some(r) => before[s.identity := r]
      case None => before
  }

  /** Everything registered for one log, in order. */
  ghost function History(run: seq<Submission>, id: Identity): (h: seq<Registered>)
    ensures h != [] <==> id in After(run)
    ensures h != [] ==> h[|h| - 1] == After(run)[id]
  {
    hide Registers;
    if run == [] then []
    else
      var n := |run| - 1;
      var s := run[n];
      match Registers(s, After(run[..n]))
      case Some(r) => if s.identity == id then History(run[..n], id) + [r] else History(run[..n], id)
      case None => History(run[..n], id)
  }

  /** `r` commits to the first leaves of `ls`, as many as its size says. */
  ghost predicate CommitsToPrefix(r: Registered, ls: seq<Hash>) {
    && r.size >= 0 && Complete(r.size) && LeafFloor(r.size) <= |ls|
    && r.commitment == Whole(Accumulator(ls[..LeafFloor(r.size)]))
  }

  /** One passing checkpoint: if its commitment is a prefix of a log, so is the one before it. */
  lemma StepBack(m: Checkpoint, ls: seq<Hash>)
    requires Passes(m)
    requires CommitsToPrefix(Registered(m.logSize.value, m.commitment.value), ls)
    ensures CommitsToPrefix(Registered(m.prevSize.value, m.prevCommitment.value), ls)
    ensures m.prevSize.value <= m.logSize.value
  {
    hide NodeCount, LeafFloor, Complete, Accumulator, AccumulatorFor, Mountains;
    var prev, size := m.prevSize.value, m.logSize.value;
    var f, t := LeafFloor(prev), LeafFloor(size);
    FloorOrder(prev, size);
    if prev == 0 {
      EmptyCommitment(m.prevCommitment.value.digests, ls);
    } else if prev < size {
      var content := m.consistencyProof.value.content;
      CompleteCount(prev);
      CompleteCount(size);
      var pc := m.prevCommitment.value.digests;
      var log := ls[..t];
      VerifiersAgree(f, t, pc, ParseAll(content.paths).value, Accumulator(log)) by {
        LeafFloorBelow(prev, size);
      }
      PeaksProvenExact(log, f, pc, ParseAll(content.paths).value);
      assert log[..f] == ls[..f];
    }
  }

  lemma EmptyCommitment(pc: seq<Hash>, ls: seq<Hash>)
    requires |pc| == Ones(LeafFloor(0))
    ensures Complete(0) && LeafFloor(0) == 0 && pc == [] == Accumulator(ls[..0])
  {
    NothingLeft(0);
    hide NodeCount, LeafFloor, Mountains;
    MountainTotal(0);
    assert Ones(0) == 0;
  }

  /** The claims an honest log makes when it grows from `f` to `|ls|` leaves, with the given right peaks. */
  ghost function HonestClaims(ls: seq<Hash>, f: nat, right: seq<Hash>): Checkpoint
    requires f < |ls|
  {
    hide NodeCount;
    ForestIsMmr(ls);
    Checkpoint(
      KIND, Value(NodeCount(|ls|)), Value(NodeCount(f)),
      Value(Whole(Accumulator(ls))), Value(Whole(Accumulator(ls[..f]))), Value("now"), Value(|ls|),
      if f == 0 then Missing
      else Value(Content(ProofContent(NodeCount(f), NodeCount(|ls|),
                                   ToWireAll(HonestWitness(Nodes(ls), f, |ls|)), ToWire(right)))))
  }

  /** Completeness: every honest growth step has right peaks with which its checkpoint passes. */
  lemma HonestPasses(ls: seq<Hash>, f: nat)
    requires f < |ls|
    ensures exists right :: Passes(HonestClaims(ls, f, right))
  {
    hide NodeCount, LeafFloor, Complete, Accumulator, AccumulatorFor, Mountains, HonestWitness, Nodes;
    ForestIsMmr(ls);
    LeafFloorOfCount(f);
    LeafFloorOfCount(|ls|);
    CompleteIff(NodeCount(f));
    CompleteIff(NodeCount(|ls|));
    NodeCountMonotone(f, |ls|);
    NodeCountMonotone(0, f);
    NothingLeft(0);
    MountainTotal(f);
    MountainTotal(|ls|);
    var ws := HonestWitness(Nodes(ls), f, |ls|);
    PeaksProvenExact(ls, f, Accumulator(ls[..f]), ws);
    VerifiersAgree(f, |ls|, Accumulator(ls[..f]), ws, Accumulator(ls));
    var right :| AccumulatorFor(NodeCount(f), NodeCount(|ls|), Accumulator(ls[..f]), ws, right)
                 == Some(Accumulator(ls));
    WireRoundTrip(ToWire(right), right);
    WireRoundTripAll(ToWireAll(ws), ws);
    assert Passes(HonestClaims(ls, f, right));
  }

  /**
    Whole-run chain safety: whatever was submitted, in whatever order, if the
    last commitment registered for a log is the accumulator of `ls`, then every
    earlier one registered for it is the accumulator of a prefix of `ls`, and
    sizes never fall.
  */
  lemma {:induction false} ChainSafety(run: seq<Submission>, id: Identity, ls: seq<Hash>)
    requires History(run, id) != []
    requires CommitsToPrefix(After(run)[id], ls)
    ensures forall r <- History(run, id) :: CommitsToPrefix(r, ls) && r.size <= After(run)[id].size
    decreases |run|
  {
    hide CommitsToPrefix, Passes;
    var n := |run| - 1;
    var s := run[n];
    var before := run[..n];
    if s.identity == id && Passes(s.claims) && Continues(s.identity, s.claims, After(before)) {
      StepBack(s.claims, ls);
      if History(before, id) != [] {
        ChainSafety(before, id, ls);
      }
    } else {
      ChainSafety(before, id, ls);
    }
  }
}
