/**
 * The lookup of an existing thread in `move`: every thread of the guild is
 * compared, case-insensitively, with the requested name, and each match
 * overwrites the previous one, so the last match in enumeration order wins.
 */
module Threads {
  import opened Wrappers
  import opened Text
  import opened Messages

  /** `thread.name.lower() == thread_name.lower()`. */
  predicate NameMatches(t: Thread, name: string) {
    Lower(t.name) == Lower(name)
  }

  /** The last thread of `threads` whose name matches `name`, if any. */
  function LastMatch(threads: seq<Thread>, name: string): Option<Thread>
  {
    if threads == [] then None
    else if NameMatches(threads[|threads| - 1], name) then Some(threads[|threads| - 1])
    else LastMatch(threads[..|threads| - 1], name)
  }

  /**
   * LastMatch finds nothing exactly when no thread matches, and what it finds
   * is a matching thread with no matching thread after it.
   */
  lemma {:induction false} LastMatchCorrect(threads: seq<Thread>, name: string)
    ensures LastMatch(threads, name).None? <==>
      forall i :: 0 <= i < |threads| ==> !NameMatches(threads[i], name)
    ensures LastMatch(threads, name).Some? ==>
      exists i :: 0 <= i < |threads| && threads[i] == LastMatch(threads, name).value &&
        NameMatches(threads[i], name) &&
        forall j :: i < j < |threads| ==> !NameMatches(threads[j], name)
  {
    if threads != [] {
      var n := |threads| - 1;
      var init := threads[..n];
      LastMatchCorrect(init, name);
      assert forall i :: 0 <= i < n ==> init[i] == threads[i];
      if !NameMatches(threads[n], name) && LastMatch(init, name).Some? {
        var i :| 0 <= i < |init| && init[i] == LastMatch(init, name).value &&
          NameMatches(init[i], name) &&
          forall j :: i < j < |init| ==> !NameMatches(init[j], name);
        assert threads[i] == LastMatch(threads, name).value;
      }
    }
  }

  /** The index form: the thread at the last matching index is the one found. */
  lemma LastMatchAt(threads: seq<Thread>, name: string, i: int)
    requires 0 <= i < |threads| && NameMatches(threads[i], name)
    requires forall j :: i < j < |threads| ==> !NameMatches(threads[j], name)
    ensures LastMatch(threads, name) == Some(threads[i])
  {
    LastMatchCorrect(threads, name);
    var k :| 0 <= k < |threads| && threads[k] == LastMatch(threads, name).value &&
      NameMatches(threads[k], name) &&
      forall j :: k < j < |threads| ==> !NameMatches(threads[j], name);
    assert k == i;
  }

  /** Lowering the requested name first (as `move` does) changes no comparison. */
  lemma MatchesLoweredName(t: Thread, name: string)
    ensures NameMatches(t, Lower(name)) <==> NameMatches(t, name)
  {
    LowerIdempotent(name);
  }

  /** The search loop: `threadExists` is overwritten by every matching thread. */
  method FindExistingThread(threads: seq<Thread>, name: string) returns (found: Option<Thread>)
    ensures found == LastMatch(threads, name)
  {
    found := None;
    for i := 0 to |threads|
      invariant found == LastMatch(threads[..i], name)
    {
      assert threads[..i + 1][..i] == threads[..i];
      if Lower(threads[i].name) == Lower(name) {
        found := Some(threads[i]);
      }
    }
    assert threads[..|threads|] == threads;
  }
}
