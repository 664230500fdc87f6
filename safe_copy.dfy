/**
 * `safe_copy`: copy a file and check the copy against the source by hash, retrying
 * when the hashes cannot be computed or do not match.
 *
 * What the filesystem does in each round is an input: `rounds[i]` says whether the
 * i-th `shutil.copy2` raised, whether hashing raised, or which two hashes came out.
 */
module SafeCopy {
  import opened Outcomes

  /** `range(3)`: the number of copy attempts. */
  const MaxAttempts: nat := 3

  /** What happened in one attempt. */
  datatype Round =
    | CopyFailed(reason: string)                        // `shutil.copy2` raised IOError
    | HashFailed                                        // `_file_hash` raised IOError
    | Hashed(sourceHash: string, targetHash: string)    // both SHA-256 digests computed

  /** A round that ends the loop: a failed copy or matching hashes. */
  predicate Settles(r: Round) {
    r.CopyFailed? || (r.Hashed? && r.sourceHash == r.targetHash)
  }

  /** How `safe_copy` ends, and how many times it called `shutil.copy2`. */
  datatype Outcome = Outcome(result: Result<()>, copies: nat)

  /** The loop from attempt `i` on. */
  function CopyFrom(source: string, target: string, rounds: seq<Round>, i: nat): (o: Outcome)
    requires i <= MaxAttempts <= |rounds|
    ensures i <= o.copies <= MaxAttempts
    ensures i < MaxAttempts ==> i < o.copies
    decreases MaxAttempts - i
  {
    if i == MaxAttempts then Outcome(Err(IntegrityMismatch), MaxAttempts)
    else match rounds[i]
      case CopyFailed(reason) => Outcome(Err(CopyError(source, target, reason)), i + 1)
      case HashFailed => CopyFrom(source, target, rounds, i + 1)
      case Hashed(s, t) =>
        if s == t then Outcome(Ok(()), i + 1) else CopyFrom(source, target, rounds, i + 1)
  }

  function SafeCopyOutcome(source: string, target: string, rounds: seq<Round>): Outcome
    requires MaxAttempts <= |rounds|
  {
    CopyFrom(source, target, rounds, 0)
  }

  /** Reference definition: the first attempt at or after `i` that ends the loop
      (`MaxAttempts` when none does). */
  function FirstSettled(rounds: seq<Round>, i: nat): (k: nat)
    requires i <= MaxAttempts <= |rounds|
    ensures i <= k <= MaxAttempts
    ensures k < MaxAttempts ==> Settles(rounds[k])
    ensures forall j :: i <= j < k ==> !Settles(rounds[j])
    decreases MaxAttempts - i
  {
    if i == MaxAttempts || Settles(rounds[i]) then i else FirstSettled(rounds, i + 1)
  }

  /** The loop is decided by the first round that settles it. */
  lemma {:induction false} CopyFromFirstSettled(source: string, target: string, rounds: seq<Round>, i: nat)
    requires i <= MaxAttempts <= |rounds|
    ensures var o := CopyFrom(source, target, rounds, i);
            var k := FirstSettled(rounds, i);
            && o.copies == (if k < MaxAttempts then k + 1 else MaxAttempts)
            && (k == MaxAttempts ==> o.result == Err(IntegrityMismatch))
            && (k < MaxAttempts && rounds[k].CopyFailed? ==>
                  o.result == Err(CopyError(source, target, rounds[k].reason)))
            && (k < MaxAttempts && rounds[k].Hashed? ==> o.result == Ok(()))
    decreases MaxAttempts - i
  {
    if i < MaxAttempts && !Settles(rounds[i]) {
      CopyFromFirstSettled(source, target, rounds, i + 1);
    }
  }

  /** The copy is reported good exactly when some attempt produced matching hashes and no
      earlier copy raised. */
  lemma {:induction false} VerifiedIff(source: string, target: string, rounds: seq<Round>)
    requires MaxAttempts <= |rounds|
    ensures SafeCopyOutcome(source, target, rounds).result.Ok? <==>
              exists k :: 0 <= k < MaxAttempts && rounds[k].Hashed? &&
                rounds[k].sourceHash == rounds[k].targetHash &&
                forall j :: 0 <= j < k ==> !rounds[j].CopyFailed?
  {
    CopyFromFirstSettled(source, target, rounds, 0);
    var k := FirstSettled(rounds, 0);
    if SafeCopyOutcome(source, target, rounds).result.Ok? {
      assert k < MaxAttempts && rounds[k].Hashed?;
    }
  }

  /** The integrity error is raised exactly when all three attempts copied but none produced
      matching hashes; `shutil.copy2` then ran three times. */
  lemma {:induction false} ExhaustedIff(source: string, target: string, rounds: seq<Round>)
    requires MaxAttempts <= |rounds|
    ensures SafeCopyOutcome(source, target, rounds).result == Err(IntegrityMismatch) <==>
              forall k :: 0 <= k < MaxAttempts ==> !Settles(rounds[k])
    ensures SafeCopyOutcome(source, target, rounds).result == Err(IntegrityMismatch) ==>
              SafeCopyOutcome(source, target, rounds).copies == MaxAttempts
  {
    CopyFromFirstSettled(source, target, rounds, 0);
  }

  /** A failing copy aborts at once, without further attempts, carrying its reason. */
  lemma {:induction false} CopyErrorAborts(source: string, target: string, rounds: seq<Round>, k: nat)
    requires MaxAttempts <= |rounds|
    requires k < MaxAttempts && rounds[k].CopyFailed?
    requires forall j :: 0 <= j < k ==> !Settles(rounds[j])
    ensures SafeCopyOutcome(source, target, rounds) ==
              Outcome(Err(CopyError(source, target, rounds[k].reason)), k + 1)
  {
    CopyFromFirstSettled(source, target, rounds, 0);
    assert FirstSettled(rounds, 0) == k;
  }

  /** `safe_copy(source, target)`: Ok(()) or the PluginError it raises. */
  method SafeCopy(source: string, target: string, rounds: seq<Round>) returns (r: Result<()>, copies: nat)
    requires MaxAttempts <= |rounds|
    ensures Outcome(r, copies) == SafeCopyOutcome(source, target, rounds)
    ensures 1 <= copies <= MaxAttempts
  {
    copies := 0;
    for attempt := 0 to MaxAttempts
      invariant copies == attempt
      invariant CopyFrom(source, target, rounds, attempt) == SafeCopyOutcome(source, target, rounds)
    {
      copies := copies + 1;
      match rounds[attempt] {
        case CopyFailed(reason) =>
          return Err(CopyError(source, target, reason)), copies;
        case HashFailed =>
        case Hashed(sourceHash, targetHash) =>
          if sourceHash == targetHash {
            return Ok(()), copies;
          }
      }
    }
    return Err(IntegrityMismatch), copies;
  }
}
