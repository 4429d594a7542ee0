/**
 * The tally of download results (bin/serve-clone.js:127-138): each result
 * string is classified by its leading word and counted; the `Failed` ones
 * are also kept, in order, for the error log.
 */
module Tally {
  import opened Results
  import opened Text
  import opened Transfer

  /** `resultCounts`: the three counters and the failure messages. */
  datatype Counts = Counts(downloaded: nat, already: nat, errors: nat, errorMsg: seq<string>)

  const Zero := Counts(0, 0, 0, [])

  /** The `if / else if` chain on `startsWith`: which counter a result goes to, if any. */
  function Classify(result: string): Option<Status>
  {
    if StartsWith(result, "Finished") then Some(Downloaded)
    else if StartsWith(result, "Already") then Some(AlreadyPresent)
    else if StartsWith(result, "Failed") then Some(Failed)
    else None
  }

  /** One iteration of the loop. */
  function Step(c: Counts, result: string): Counts
  {
    match Classify(result)
    case Some(Downloaded) => c.(downloaded := c.downloaded + 1)
    case Some(AlreadyPresent) => c.(already := c.already + 1)
    case Some(Failed) => c.(errors := c.errors + 1, errorMsg := c.errorMsg + [result])
    case None => c
  }

  /** The loop as a left fold over the results. */
  function TallyOf(results: seq<string>): Counts
  {
    if |results| == 0 then Zero
    else Step(TallyOf(results[..|results| - 1]), results[|results| - 1])
  }

  /** The loop of lines 127-138. */
  method TallyResults(results: seq<string>) returns (counts: Counts)
    ensures counts == TallyOf(results)
  {
    counts := Zero;
    var i := 0;
    while i < |results|
      invariant 0 <= i <= |results|
      invariant counts == TallyOf(results[..i])
    {
      var result := results[i];
      assert results[..i + 1][..i] == results[..i];
      if StartsWith(result, "Finished") {
        counts := counts.(downloaded := counts.downloaded + 1);
      } else if StartsWith(result, "Already") {
        counts := counts.(already := counts.already + 1);
      } else if StartsWith(result, "Failed") {
        counts := counts.(errors := counts.errors + 1, errorMsg := counts.errorMsg + [result]);
      }
      i := i + 1;
    }
    assert results[..i] == results;
  }

  /** The results classified as `status`, in input order. */
  function Matching(results: seq<string>, status: Status): (r: seq<string>)
    ensures |r| <= |results|
    ensures forall k :: 0 <= k < |r| ==> Classify(r[k]) == Some(status)
  {
    if |results| == 0 then []
    else Matching(results[..|results| - 1], status)
         + (if Classify(results[|results| - 1]) == Some(status) then [results[|results| - 1]] else [])
  }

  /** The results with a recognised leading word. */
  function Recognised(results: seq<string>): (r: seq<string>)
    ensures |r| <= |results|
  {
    if |results| == 0 then []
    else Recognised(results[..|results| - 1])
         + (if Classify(results[|results| - 1]).Some? then [results[|results| - 1]] else [])
  }

  /**
   * Each counter counts the results of its kind, `errorMsg` is exactly the
   * `Failed` results in input order, and `errors` is its length.
   */
  lemma {:induction false} TallyCountsKinds(results: seq<string>)
    ensures TallyOf(results).downloaded == |Matching(results, Downloaded)|
    ensures TallyOf(results).already == |Matching(results, AlreadyPresent)|
    ensures TallyOf(results).errorMsg == Matching(results, Failed)
    ensures TallyOf(results).errors == |TallyOf(results).errorMsg|
  {
    if |results| > 0 {
      TallyCountsKinds(results[..|results| - 1]);
    }
  }

  /** The three counters together count exactly the recognised results. */
  lemma {:induction false} TallyTotal(results: seq<string>)
    ensures TallyOf(results).downloaded + TallyOf(results).already + TallyOf(results).errors == |Recognised(results)|
  {
    if |results| > 0 {
      TallyTotal(results[..|results| - 1]);
    }
  }

  /** When every result is recognised, the counters add up to the number of results. */
  lemma {:induction false} RecognisedAll(results: seq<string>)
    requires forall k :: 0 <= k < |results| ==> Classify(results[k]).Some?
    ensures Recognised(results) == results
  {
    if |results| > 0 {
      RecognisedAll(results[..|results| - 1]);
      assert results[..|results| - 1] + [results[|results| - 1]] == results;
    }
  }

  /** Classifying a message built for a status gives back that status. */
  lemma ClassifyMessage(status: Status, url: string, filePath: string)
    ensures Classify(Message(status, url, filePath)) == Some(status)
  {
    var m := Message(status, url, filePath);
    var p := Prefix(status);
    assert m[..|p|] == p;
    match status
    case Downloaded =>
      assert m[..|"Finished"|] == p[..|"Finished"|];
    case AlreadyPresent =>
      assert m[..|"Already"|] == p[..|"Already"|];
      assert m[0] == 'A';
    case Failed =>
      assert m[..|"Failed"|] == p[..|"Failed"|];
      assert m[0] == 'F' && m[1] == 'a';
  }

  /** A message built for one status is never counted under another. */
  lemma {:induction false} MessageMatchesOnly(status: Status, other: Status, url: string, filePath: string)
    requires status != other
    ensures Classify(Message(status, url, filePath)) != Some(other)
  {
    ClassifyMessage(status, url, filePath);
  }

  /** The number of `status` among `statuses`. */
  function Occurrences(statuses: seq<Status>, status: Status): nat
  {
    if |statuses| == 0 then 0
    else Occurrences(statuses[..|statuses| - 1], status) + (if statuses[|statuses| - 1] == status then 1 else 0)
  }

  /**
   * The tally of messages built for known statuses counts each status as
   * many times as it occurs, and accounts for every message.
   */
  lemma {:induction false} TallyOfMessages(results: seq<string>, statuses: seq<Status>, urls: seq<string>, paths: seq<string>)
    requires |results| == |statuses| == |urls| == |paths|
    requires forall k :: 0 <= k < |results| ==> results[k] == Message(statuses[k], urls[k], paths[k])
    ensures TallyOf(results).downloaded == Occurrences(statuses, Downloaded)
    ensures TallyOf(results).already == Occurrences(statuses, AlreadyPresent)
    ensures TallyOf(results).errors == Occurrences(statuses, Failed)
    ensures TallyOf(results).downloaded + TallyOf(results).already + TallyOf(results).errors == |results|
  {
    if |results| > 0 {
      var n := |results| - 1;
      forall k | 0 <= k < n
        ensures results[..n][k] == Message(statuses[..n][k], urls[..n][k], paths[..n][k])
      {
      }
      TallyOfMessages(results[..n], statuses[..n], urls[..n], paths[..n]);
      StepMessage(TallyOf(results[..n]), statuses[n], urls[n], paths[n]);
    }
  }

  /** One loop step over a message built for `status` bumps exactly that status's counter. */
  lemma StepMessage(c: Counts, status: Status, url: string, filePath: string)
    ensures var c' := Step(c, Message(status, url, filePath));
      && c'.downloaded == c.downloaded + (if status == Downloaded then 1 else 0)
      && c'.already == c.already + (if status == AlreadyPresent then 1 else 0)
      && c'.errors == c.errors + (if status == Failed then 1 else 0)
  {
    ClassifyMessage(status, url, filePath);
  }
}
