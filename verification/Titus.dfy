/** The attempts that settle one scan target. */
module Titus {
  import opened Documents

  /** How one launch of the Titus process ended: its arguments could not be built, it did not start,
      or it exited with a code, some suppressed warnings, perhaps a known permanent error, and perhaps a datastore. */
  datatype Attempt =
    | Unsupported(message: string)
    | NotStarted(message: string)
    | Exited(code: int, warnings: nat, permanent: bool, datastore: bool)

  const MAX_ATTEMPTS := 3

  function Complaints(a: Attempt): seq<string>
    requires a.Exited?
  {
    (if a.code == 0 && !a.datastore then ["Titus succeeded without creating the datastore"]
     else if a.code != 0 then ["Titus exited with a non-zero status"] else [])
    + (if a.warnings > 0 then ["suppressed Titus warnings"] else [])
  }

  predicate Clean(a: Attempt) { a.Exited? && a.code == 0 && a.warnings == 0 && a.datastore }

  predicate Retryable(a: Attempt) { a.NotStarted? || (a.Exited? && !a.permanent) }

  /** One attempt on one target, as it ended. */
  datatype Try = Try(targetId: string, attempt: Attempt)

  /** The attempts end at the first clean one, at the first that is not worth repeating, or after three. */
  ghost predicate Complete(tries: seq<Try>) {
    && 1 <= |tries| <= 3
    && Unfinished(tries[..|tries| - 1])
    && var last := tries[|tries| - 1].attempt;
       |tries| == 3 || Clean(last) || !Retryable(last)
  }

  /** Every attempt so far failed in a way that is worth repeating. */
  ghost predicate Unfinished(tries: seq<Try>) {
    forall k :: 0 <= k < |tries| ==> !Clean(tries[k].attempt) && Retryable(tries[k].attempt)
  }

  ghost predicate AllOf(tries: seq<Try>, id: string) { forall t <- tries :: t.targetId == id }

  /** The saved result tells whether the last attempt was clean. */
  predicate Tells(r: TargetResult, last: Attempt) {
    && r.status == (if Clean(last) then TargetStatus.Scanned else TargetStatus.Failed)
    && (r.errors == [] <==> Clean(last))
    && r.returnCode == (if last.Exited? then Some(last.code) else None)
    && r.startedAt.Some? && r.finishedAt.Some?
  }

  /** The attempts on one target, in order. */
  function Of(tries: seq<Try>, id: string): seq<Try> {
    if tries == [] then []
    else Of(tries[..|tries| - 1], id) + if tries[|tries| - 1].targetId == id then tries[|tries| - 1..] else []
  }

  /** How often a target was attempted. */
  function Times(tries: seq<Try>, id: string): nat { |Of(tries, id)| }

  lemma {:induction false} OfConcat(a: seq<Try>, b: seq<Try>, id: string)
    ensures Of(a + b, id) == Of(a, id) + Of(b, id)
  {
    if b == [] {
      assert a + b == a;
    } else {
      assert (a + b)[..|a + b| - 1] == a + b[..|b| - 1];
      assert (a + b)[|a + b| - 1..] == b[|b| - 1..];
      OfConcat(a, b[..|b| - 1], id);
    }
  }

  lemma {:induction false} OfOne(tries: seq<Try>, id: string, other: string)
    requires AllOf(tries, id)
    ensures Of(tries, other) == if other == id then tries else []
  {
    if tries != [] {
      OfOne(tries[..|tries| - 1], id, other);
      assert tries == tries[..|tries| - 1] + tries[|tries| - 1..];
    }
  }

  /** The attempts on this target were all that it needed, and its saved result tells how the last of them ended. */
  ghost predicate ToldBy(r: TargetResult, tries: seq<Try>, id: string) {
    var own := Of(tries, id);
    Complete(own) && Tells(r, own[|own| - 1].attempt)
  }

  lemma ToldByOwn(r: TargetResult, before: seq<Try>, own: seq<Try>, id: string)
    requires AllOf(own, id) && Times(before, id) == 0 && Complete(own) && Tells(r, own[|own| - 1].attempt)
    ensures ToldBy(r, before + own, id)
  {
    hide Complete, Tells, AllOf;
    OfConcat(before, own, id);
    OfOne(own, id, id);
    assert Of(before, id) + own == own;
  }

  lemma StillToldBy(r: TargetResult, before: seq<Try>, more: seq<Try>, id: string, other: string)
    requires ToldBy(r, before, other) && AllOf(more, id) && other != id
    ensures ToldBy(r, before + more, other)
  {
    hide Complete, Tells, AllOf;
    OfConcat(before, more, other);
    OfOne(more, id, other);
    assert Of(before, other) + [] == Of(before, other);
  }

  /** Each of these targets was attempted between one and three times, and no other target was. */
  ghost predicate TriedOnly(tries: seq<Try>, ids: seq<string>) {
    forall id :: if id in ids then 1 <= Times(tries, id) <= MAX_ATTEMPTS else Times(tries, id) == 0
  }

  /** The same for a scan that an error stopped at the last of these targets. */
  ghost predicate TriedAtMost(tries: seq<Try>, ids: seq<string>) {
    forall id :: Times(tries, id) <= if id in ids then MAX_ATTEMPTS else 0
  }

  /** Some run has left the datastore behind. */
  predicate Makes(tries: seq<Try>) { exists t <- tries :: t.attempt.Exited? && t.attempt.datastore }

  lemma MakesConcat(a: seq<Try>, b: seq<Try>)
    ensures Makes(a + b) <==> Makes(a) || Makes(b)
  {
    if Makes(a) {
      var x :| x in a && x.attempt.Exited? && x.attempt.datastore;
      assert x in a + b;
    }
    if Makes(b) {
      var x :| x in b && x.attempt.Exited? && x.attempt.datastore;
      assert x in a + b;
    }
  }

  lemma TriedNone()
    ensures TriedOnly([], [])
  {
  }

  lemma TriedAnother(tries: seq<Try>, ids: seq<string>, more: seq<Try>, id: string)
    requires TriedOnly(tries, ids) && id !in ids && AllOf(more, id) && |more| <= MAX_ATTEMPTS
    ensures TriedAtMost(tries + more, ids + [id])
    ensures more != [] ==> TriedOnly(tries + more, ids + [id])
  {
    hide Of, AllOf;
    forall x: string
      ensures Times(tries + more, x) == Times(tries, x) + if x == id then |more| else 0
    {
      OfConcat(tries, more, x);
      OfOne(more, id, x);
    }
  }

  lemma NothingMade()
    ensures !Makes([]) && Unfinished([]) && (forall id :: AllOf([], id))
  {
  }

  /** One more attempt completes the list exactly when it is clean, not worth repeating, or the last. */
  lemma MadeNext(made: seq<Try>, t: Try, id: string)
    requires Unfinished(made) && AllOf(made, id) && t.targetId == id && |made| < MAX_ATTEMPTS
    ensures AllOf(made + [t], id)
    ensures !Clean(t.attempt) && Retryable(t.attempt) ==> Unfinished(made + [t])
    ensures Clean(t.attempt) || !Retryable(t.attempt) || |made| == MAX_ATTEMPTS - 1 ==> Complete(made + [t])
  {
    assert (made + [t])[..|made|] == made;
  }

  lemma CleanTells(r: TargetResult, attempt: Attempt)
    requires Tells(r, attempt)
    ensures r.status.Scanned? <==> Clean(attempt)
  {
  }

  lemma OneMakes(id: string, attempt: Attempt)
    ensures Makes([Try(id, attempt)]) <==> attempt.Exited? && attempt.datastore
  {
    assert Try(id, attempt) in [Try(id, attempt)];
  }

  /** What an export yields: when it was generated, and the findings. */
  datatype Export = Export(stamp: string, findings: seq<Finding>)

  /** The scanner of one boundary. Every attempt and every export it makes is on record. */
  class Scanner {
    ghost var tries: seq<Try>
    ghost var exports: seq<Option<Export>>

    constructor ()
      ensures tries == [] && exports == []
    {
      tries, exports := [], [];
    }

    /** Run the Titus process once on a target, as far as that is possible. A datastore that exists stays. */
    method Run(id: string, present: bool) returns (attempt: Attempt)
      modifies `tries
      ensures present && attempt.Exited? ==> attempt.datastore
      ensures tries == old(tries) + [Try(id, attempt)]
    {
      attempt := *;
      if present && attempt.Exited? {
        attempt := attempt.(datastore := true);
      }
      tries := tries + [Try(id, attempt)];
    }

    method ScanOnce(id: string, was: TargetResult, present: bool)
        returns (result: TargetResult, retry: bool, stored: bool, ghost made: Try)
      modifies `tries
      ensures tries == old(tries) + [made] && made.targetId == id
      ensures Tells(result, made.attempt) && retry == Retryable(made.attempt)
      ensures stored == (present || Makes([made]))
    {
      var clock: int := *;
      result := was.(returnCode := None, startedAt := Some(clock), finishedAt := None);
      var attempt := Run(id, present);
      stored := present || (attempt.Exited? && attempt.datastore);
      match attempt {
        case Unsupported(message) =>
          result := result.(status := TargetStatus.Failed, errors := [message], finishedAt := Some(clock));
          retry := false;
        case NotStarted(message) =>
          result := result.(status := TargetStatus.Failed, errors := [message], finishedAt := Some(clock));
          retry := true;
        case Exited(code, _, permanent, _) =>
          var errors := Complaints(attempt);
          result := result.(status := if errors == [] then TargetStatus.Scanned else TargetStatus.Failed,
                            returnCode := Some(code), errors := errors, finishedAt := Some(clock));
          retry := !permanent;
      }
      made := Try(id, attempt);
      OneMakes(id, attempt);
    }

    /** Settle a target by the last of its attempts, unless an error is raised in place of an attempt. */
    method Scan(id: string, was: TargetResult, present: bool, faults: bool)
        returns (result: TargetResult, interrupted: bool, stored: bool, ghost made: seq<Try>)
      modifies `tries
      ensures tries == old(tries) + made && AllOf(made, id)
      ensures stored == (present || Makes(made))
      ensures interrupted ==> faults && result.status.Running? && |made| < MAX_ATTEMPTS && Unfinished(made)
      ensures !interrupted ==> Complete(made) && Tells(result, made[|made| - 1].attempt)
    {
      hide Makes, Unfinished, Complete, AllOf, Tells, Retryable;
      result, interrupted, stored, made := was, false, present, [];
      NothingMade();
      for k := 0 to MAX_ATTEMPTS
        invariant tries == old(tries) + made && AllOf(made, id)
        invariant stored == (present || Makes(made))
        invariant |made| == k && Unfinished(made)
        invariant k > 0 ==> Tells(result, made[k - 1].attempt)
        invariant k == MAX_ATTEMPTS ==> Complete(made)
      {
        result := result.(status := TargetStatus.Running);
        var raised: bool := *;
        if faults && raised {
          interrupted := true;
          return;
        }
        ghost var tried;
        var retry;
        result, retry, stored, tried := ScanOnce(id, result, stored);
        MakesConcat(made, [tried]);
        MadeNext(made, tried, id);
        CleanTells(result, tried.attempt);
        made := made + [tried];
        if result.status.Scanned? || !retry {
          return;
        }
      }
    }

    /** Export the findings. Without faults that succeeds exactly when there is a datastore to export. */
    method ExportReport(present: bool, faults: bool) returns (exported: Option<Export>)
      modifies `exports
      ensures exports == old(exports) + [exported]
      ensures !faults ==> (exported.Some? <==> present)
    {
      var found: Export := *;
      var failing: bool := *;
      exported := if (if faults then failing else !present) then None else Some(found);
      exports := exports + [exported];
    }
  }
}
