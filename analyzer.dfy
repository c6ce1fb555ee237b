/** The conversation analyzer of app.py: `count_messages`, which tallies
    the nodes that carry text, and `get_last_response`, which scans the
    nodes once for the newest assistant reply and shortens it for display. */
module Analyzer {
  import opened Common
  import opened Export

  // ---------------------------------------------------------------------
  // count_messages

  /** A node `count_messages` counts: it carries a message whose
      `content.parts` is a non-empty list (whatever the parts hold). */
  predicate Counted(n: Node)
  {
    n.message.Some? && n.message.value.parts.Some? && |n.message.value.parts.value| > 0
  }

  /** The number of counted nodes among `nodes`. */
  function Tally(nodes: seq<Node>): nat
  {
    if nodes == [] then 0
    else Tally(nodes[..|nodes| - 1]) + (if Counted(nodes[|nodes| - 1]) then 1 else 0)
  }

  /** `count_messages`: 0 for an entry that is not a dict or has no
      mapping, and otherwise one per node that carries a non-empty
      list of parts. */
  method CountMessages(e: Entry) returns (count: nat)
    ensures count == Tally(Nodes(e))
  {
    count := 0;
    if e.Record? && e.conv.mapping.Some? {
      var nodes := e.conv.mapping.value;
      for i := 0 to |nodes|
        invariant count == Tally(nodes[..i])
      {
        assert nodes[..i + 1][..i] == nodes[..i];
        var node := nodes[i];
        if node.message.Some? {
          var parts := node.message.value.parts;
          if parts.Some? && |parts.value| > 0 {
            count := count + 1;
          }
        }
      }
      assert nodes[..|nodes|] == nodes;
    }
  }

  /** The tally never exceeds the number of nodes; it is 0 exactly when no
      node is counted and equals the number of nodes exactly when every
      node is. */
  lemma {:induction false} TallyBounds(nodes: seq<Node>)
    ensures Tally(nodes) <= |nodes|
    ensures Tally(nodes) == 0 <==> forall i :: 0 <= i < |nodes| ==> !Counted(nodes[i])
    ensures Tally(nodes) == |nodes| <==> forall i :: 0 <= i < |nodes| ==> Counted(nodes[i])
  {
    if nodes != [] {
      var init := nodes[..|nodes| - 1];
      TallyBounds(init);
      assert forall i :: 0 <= i < |init| ==> init[i] == nodes[i];
    }
  }

  /** Tallying two runs of nodes separately adds up. */
  lemma {:induction false} TallyConcat(a: seq<Node>, b: seq<Node>)
    ensures Tally(a + b) == Tally(a) + Tally(b)
  {
    if b == [] {
      assert a + b == a;
    } else {
      var init := b[..|b| - 1];
      TallyConcat(a, init);
      assert (a + b)[..|a + b| - 1] == a + init;
    }
  }

  /** The tally does not depend on the order in which the mapping is
      walked: any reordering of the nodes gives the same count. */
  lemma {:induction false} TallyPermutation(a: seq<Node>, b: seq<Node>)
    requires multiset(a) == multiset(b)
    ensures Tally(a) == Tally(b)
  {
    if a == [] {
      assert |b| == |multiset(b)| == 0;
    } else {
      var x := a[|a| - 1];
      var init := a[..|a| - 1];
      assert a == init + [x];
      assert x in multiset(b);
      var j :| 0 <= j < |b| && b[j] == x;
      var rest := b[..j] + b[j + 1..];
      assert b == b[..j] + [x] + b[j + 1..];
      assert multiset(b) == multiset(b[..j]) + multiset{x} + multiset(b[j + 1..]);
      assert multiset(a) == multiset(init) + multiset{x};
      assert multiset(rest) == multiset(b[..j]) + multiset(b[j + 1..]);
      assert multiset(init) == multiset(a) - multiset{x};
      assert multiset(rest) == multiset(b) - multiset{x};
      TallyPermutation(init, rest);
      TallyConcat(b[..j] + [x], b[j + 1..]);
      TallyConcat(b[..j], [x]);
      TallyConcat(b[..j], b[j + 1..]);
      assert [x][..0] == [];
    }
  }

  // ---------------------------------------------------------------------
  // get_last_response

  /** The state the scan carries from node to node: the reply kept so far
      (`last_response`) and its timestamp (`latest_timestamp`). */
  datatype Pick = Pick(reply: Option<string>, latest: real)

  /** The node's message was written by the assistant. */
  predicate FromAssistant(n: Node)
  {
    n.message.Some? && n.message.value.role == Some("assistant")
  }

  /** `message.get('create_time', 0) or 0`: a missing or null time reads as 0. */
  function Stamp(n: Node): real
  {
    if n.message.Some? && n.message.value.createTime.Some? then n.message.value.createTime.value else 0.0
  }

  /** One iteration of the scan over the mapping. */
  function Step(p: Pick, n: Node): Result<Pick>
  {
    if FromAssistant(n) && Stamp(n) > p.latest then
      match n.message.value.parts
      case None => Ok(p)
      case Some(parts) =>
        if parts == [] then Raise(IndexError)
        else if parts[0] != "" then Ok(Pick(Some(parts[0]), Stamp(n)))
        else Ok(p)
    else Ok(p)
  }

  /** The scan over `nodes`, starting with no reply and timestamp 0. */
  function Scan(nodes: seq<Node>): Result<Pick>
  {
    if nodes == [] then Ok(Pick(None, 0.0))
    else match Scan(nodes[..|nodes| - 1])
      case Raise(x) => Raise(x)
      case Ok(p) => Step(p, nodes[|nodes| - 1])
  }

  /** The longest reply shown. */
  const MaxReply: nat := 100

  /** A reply longer than 100 characters keeps its first 97 and gains
      "...", so that it is exactly 100 long; a shorter one is kept as is. */
  function Truncate(s: string): (r: string)
    ensures |r| <= MaxReply
    ensures |s| <= MaxReply <==> r == s
    ensures |s| > MaxReply ==> |r| == MaxReply && r == s[..MaxReply - 3] + "..."
  {
    if |s| > MaxReply then s[..MaxReply - 3] + "..." else s
  }

  /** The reply `get_last_response` returns for `e`, or the exception it raises. */
  function LastReply(e: Entry): Result<Option<string>>
  {
    match Scan(Nodes(e))
    case Raise(x) => Raise(x)
    case Ok(p) => Ok(if p.reply.Some? then Some(Truncate(p.reply.value)) else None)
  }

  /** `get_last_response`. */
  method LastResponse(e: Entry) returns (r: Result<Option<string>>)
    ensures r == LastReply(e)
  {
    if e.NotARecord? || e.conv.mapping.None? {
      return Ok(None);
    }
    var nodes := e.conv.mapping.value;
    var lastResponse: Option<string> := None;
    var latestTimestamp: real := 0.0;
    for i := 0 to |nodes|
      invariant Scan(nodes[..i]) == Ok(Pick(lastResponse, latestTimestamp))
    {
      assert nodes[..i + 1][..i] == nodes[..i];
      var node := nodes[i];
      if node.message.Some? {
        var message := node.message.value;
        if message.role == Some("assistant") {
          var timestamp := if message.createTime.Some? then message.createTime.value else 0.0;
          if timestamp > latestTimestamp {
            var parts := if message.parts.Some? then message.parts.value else [""];
            if parts == [] {
              ScanRaisePersists(nodes, i + 1);
              assert nodes[..|nodes|] == nodes;
              return Raise(IndexError);
            }
            var content := parts[0];
            if content != "" {
              lastResponse := Some(content);
              latestTimestamp := timestamp;
            }
          }
        }
      }
    }
    assert nodes[..|nodes|] == nodes;
    if lastResponse.Some? && |lastResponse.value| > MaxReply {
      lastResponse := Some(lastResponse.value[..MaxReply - 3] + "...");
    }
    r := Ok(lastResponse);
  }

  /** Once the scan has raised on a prefix, it raises the same on the whole. */
  lemma {:induction false} ScanRaisePersists(nodes: seq<Node>, k: nat)
    requires k <= |nodes|
    requires Scan(nodes[..k]).Raise?
    ensures Scan(nodes) == Scan(nodes[..k])
    decreases |nodes| - k
  {
    if k == |nodes| {
      assert nodes[..k] == nodes;
    } else {
      assert nodes[..k + 1][..k] == nodes[..k];
      ScanRaisePersists(nodes, k + 1);
    }
  }

  // ---------------------------------------------------------------------
  // What the scan selects, stated without the scan

  /** An assistant message whose first part is non-empty text. */
  predicate Candidate(n: Node)
  {
    FromAssistant(n) && n.message.value.parts.Some? && |n.message.value.parts.value| > 0
    && n.message.value.parts.value[0] != ""
  }

  /** The first part of a candidate's message. */
  function Text(n: Node): string
    requires Candidate(n)
  {
    n.message.value.parts.value[0]
  }

  /** An assistant message whose `parts` is an empty list: reading its
      first part raises IndexError. */
  predicate EmptyParts(n: Node)
  {
    FromAssistant(n) && n.message.value.parts == Some([])
  }

  /** Node `i` holds the newest reply: a candidate with a positive time
      that no candidate beats, and that no earlier candidate ties. */
  ghost predicate IsLatestReply(nodes: seq<Node>, i: int)
  {
    && 0 <= i < |nodes|
    && Candidate(nodes[i])
    && Stamp(nodes[i]) > 0.0
    && (forall j :: 0 <= j < |nodes| && Candidate(nodes[j]) ==> Stamp(nodes[j]) <= Stamp(nodes[i]))
    && (forall j :: 0 <= j < i && Candidate(nodes[j]) ==> Stamp(nodes[j]) < Stamp(nodes[i]))
  }

  /** No candidate has a positive time. */
  ghost predicate NoReply(nodes: seq<Node>)
  {
    forall j :: 0 <= j < |nodes| && Candidate(nodes[j]) ==> Stamp(nodes[j]) <= 0.0
  }

  /** Some assistant message with an empty `parts` list has a positive
      time that beats every candidate before it: the scan reaches it while
      its time is the newest seen and indexes its empty parts. */
  ghost predicate HitsEmptyParts(nodes: seq<Node>)
  {
    exists i :: 0 <= i < |nodes| && EmptyParts(nodes[i]) && Stamp(nodes[i]) > 0.0
      && forall j :: 0 <= j < i && Candidate(nodes[j]) ==> Stamp(nodes[j]) < Stamp(nodes[i])
  }

  /** What the scan's state means after any run of nodes: it raises
      IndexError exactly when an empty `parts` list is reached; otherwise
      its timestamp is the largest candidate time (or 0), and its reply is
      the newest candidate's text, the first one seen on a tie, or absent
      when no candidate has a positive time. */
  lemma {:induction false} ScanSelectsLatest(nodes: seq<Node>)
    ensures Scan(nodes).Raise? <==> HitsEmptyParts(nodes)
    ensures Scan(nodes).Raise? ==> Scan(nodes).exc == IndexError
    ensures Scan(nodes).Ok? ==>
      var p := Scan(nodes).value;
      && p.latest >= 0.0
      && (forall j :: 0 <= j < |nodes| && Candidate(nodes[j]) ==> Stamp(nodes[j]) <= p.latest)
      && (p.reply.None? ==> p.latest == 0.0 && NoReply(nodes))
      && (p.reply.Some? ==> exists i :: IsLatestReply(nodes, i) && Stamp(nodes[i]) == p.latest && p.reply.value == Text(nodes[i]))
  {
    if nodes == [] {
    } else {
      var init := nodes[..|nodes| - 1];
      var x := nodes[|nodes| - 1];
      ScanSelectsLatest(init);
      assert forall i :: 0 <= i < |init| ==> init[i] == nodes[i];
      match Scan(init)
      case Raise(_) =>
        var i :| 0 <= i < |init| && EmptyParts(init[i]) && Stamp(init[i]) > 0.0
          && forall j :: 0 <= j < i && Candidate(init[j]) ==> Stamp(init[j]) < Stamp(init[i]);
        assert nodes[i] == init[i];
      case Ok(p) =>
        ScanStep(nodes, p);
    }
  }

  /** What the scan's state `p` means after `nodes`, when it has not raised. */
  ghost predicate Explains(nodes: seq<Node>, p: Pick)
  {
    && p.latest >= 0.0
    && (forall j :: 0 <= j < |nodes| && Candidate(nodes[j]) ==> Stamp(nodes[j]) <= p.latest)
    && (p.reply.None? ==> p.latest == 0.0 && NoReply(nodes))
    && (p.reply.Some? ==> exists i :: IsLatestReply(nodes, i) && Stamp(nodes[i]) == p.latest && p.reply.value == Text(nodes[i]))
  }

  /** The inductive step of ScanSelectsLatest, for a prefix that did not raise. */
  lemma ScanStep(nodes: seq<Node>, p: Pick)
    requires nodes != []
    requires Scan(nodes[..|nodes| - 1]) == Ok(p)
    requires !HitsEmptyParts(nodes[..|nodes| - 1]) && Explains(nodes[..|nodes| - 1], p)
    ensures Scan(nodes).Raise? <==> HitsEmptyParts(nodes)
    ensures Scan(nodes).Raise? ==> Scan(nodes).exc == IndexError
    ensures Scan(nodes).Ok? ==> Explains(nodes, Scan(nodes).value)
  {
    var x := nodes[|nodes| - 1];
    assert Scan(nodes) == Step(p, x);
    match Step(p, x)
    case Raise(_) =>
      StepRaises(nodes, p);
    case Ok(q) =>
      StepKeeps(nodes, p, q);
  }

  /** The step raises: the last node is an empty `parts` list that beats
      every earlier candidate. */
  lemma StepRaises(nodes: seq<Node>, p: Pick)
    requires nodes != []
    requires Explains(nodes[..|nodes| - 1], p)
    requires Step(p, nodes[|nodes| - 1]).Raise?
    ensures HitsEmptyParts(nodes)
    ensures Step(p, nodes[|nodes| - 1]) == Raise(IndexError)
  {
    var init := nodes[..|nodes| - 1];
    var n := |nodes| - 1;
    var x := nodes[n];
    assert EmptyParts(x) && Stamp(x) > p.latest;
    assert forall j :: 0 <= j < n ==> nodes[j] == init[j];
    assert forall j :: 0 <= j < n && Candidate(nodes[j]) ==> Stamp(nodes[j]) < Stamp(x);
  }

  /** The step does not raise: the new state explains the longer run. */
  lemma StepKeeps(nodes: seq<Node>, p: Pick, q: Pick)
    requires nodes != []
    requires !HitsEmptyParts(nodes[..|nodes| - 1]) && Explains(nodes[..|nodes| - 1], p)
    requires Step(p, nodes[|nodes| - 1]) == Ok(q)
    ensures !HitsEmptyParts(nodes)
    ensures Explains(nodes, q)
  {
    var init := nodes[..|nodes| - 1];
    var n := |nodes| - 1;
    var x := nodes[n];
    assert forall i :: 0 <= i < |init| ==> init[i] == nodes[i];
    assert !HitsEmptyParts(nodes);
    if q != p {
      assert Candidate(x) && Stamp(x) > p.latest && q == Pick(Some(Text(x)), Stamp(x));
      assert IsLatestReply(nodes, n);
    } else if p.reply.Some? {
      var i :| IsLatestReply(init, i) && Stamp(init[i]) == p.latest && p.reply.value == Text(init[i]);
      assert IsLatestReply(nodes, i);
    }
  }

  /** At most one node holds the newest reply. */
  lemma LatestReplyUnique(nodes: seq<Node>, i: int, k: int)
    requires IsLatestReply(nodes, i) && IsLatestReply(nodes, k)
    ensures i == k
  {
  }

  /** What `get_last_response` returns, stated without the scan: it raises
      IndexError exactly when an empty `parts` list is reached; it returns
      nothing when no assistant reply has a positive time; and otherwise it
      returns the newest reply, the first one seen on a tie, shortened to
      at most 100 characters. */
  lemma LastReplySelectsLatest(e: Entry)
    ensures LastReply(e).Raise? <==> HitsEmptyParts(Nodes(e))
    ensures LastReply(e).Raise? ==> LastReply(e).exc == IndexError
    ensures LastReply(e) == Ok(None) <==> !HitsEmptyParts(Nodes(e)) && NoReply(Nodes(e))
    ensures LastReply(e).Ok? && LastReply(e).value.Some? ==>
      exists i :: IsLatestReply(Nodes(e), i) && LastReply(e).value.value == Truncate(Text(Nodes(e)[i]))
  {
    var nodes := Nodes(e);
    ScanSelectsLatest(nodes);
    if Scan(nodes).Ok? && Scan(nodes).value.reply.Some? {
      var i :| IsLatestReply(nodes, i) && Stamp(nodes[i]) == Scan(nodes).value.latest
        && Scan(nodes).value.reply.value == Text(nodes[i]);
      assert !NoReply(nodes) by { assert Candidate(nodes[i]) && Stamp(nodes[i]) > 0.0; }
    }
  }
}
