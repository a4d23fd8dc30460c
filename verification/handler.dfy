/**
 The `onmessage` handler: on the submit command it runs `processImage`
 over the selection in order, accumulating the produced data, posts them,
 and closes the plugin. Host calls with visible effects (`figma.notify`,
 `figma.closePlugin`, the POST of `postData`) are recorded, in program
 order, as a trace of `Effect`s.
 */
module Handler {
  import opened Nullable
  import opened Hex
  import opened ContentType
  import opened ProcessImage

  /** The message the UI posts. */
  datatype Message = Message(kind: string, targetUrl: string, targetToken: string)

  /** The JSON payload of the POST. */
  datatype SubmitData = SubmitData(eventType: string, fileKey: Option<string>, imageData: seq<ImageDatum>)

  /** A host call with a visible effect. */
  datatype Effect =
    | Notify(text: string)
    | Close(text: string)
    | Post(url: string, token: string, data: SubmitData)

  const SubmitCommand: string := "submit-current-selection"
  const SelectPrompt: string := "Please select at least one element"
  const DatumNotFound: string := "ImageDatum not found"
  const SentMessage: string := "Data sent successfully"
  const FailureMessage: string := "Sorry, something went wrong!"

  /** The decision the loop applies to each node: `processImage` against
      this host. The loop's definitions and the lemmas about their shape are
      stated for any per-node decision, so that they hold of this one. */
  function Decide(host: Host): Node -> Outcome
  {
    node => Process(node, host)
  }

  /** The data the loop accumulates: one datum per producing node, in
      selection order. */
  function ImageDataOf(nodes: seq<Node>, decide: Node -> Outcome): (r: seq<ImageDatum>)
    ensures |r| <= |nodes|
  {
    if |nodes| == 0 then []
    else
      var last := decide(nodes[|nodes| - 1]);
      ImageDataOf(nodes[..|nodes| - 1], decide) + (if last.Produced? then [last.datum] else [])
  }

  /** The effects one loop iteration issues: a node without a datum raises
      its notification inside `processImage` and then closes the plugin.
      The catch path of `processImage`, which closes with no notification,
      is not part of this model. */
  function StepTrace(outcome: Outcome): (r: seq<Effect>)
    ensures r == [] <==> outcome.Produced?
    ensures r != [] ==> |r| == 2 && r[0].Notify? && r[1] == Close(DatumNotFound)
  {
    match outcome
    case Produced(_) => []
    case Skipped(reason) => [Notify(Notice(reason)), Close(DatumNotFound)]
  }

  /** The effects of the whole loop, in selection order: at most one
      notification-and-close pair per node, and nothing else. */
  function LoopTrace(nodes: seq<Node>, decide: Node -> Outcome): (r: seq<Effect>)
    ensures |r| % 2 == 0 && |r| <= 2 * |nodes|
    ensures forall e :: e in r ==> e.Notify? || e == Close(DatumNotFound)
  {
    if |nodes| == 0 then [] else LoopTrace(nodes[..|nodes| - 1], decide) + StepTrace(decide(nodes[|nodes| - 1]))
  }

  /** True iff no effect of `t` is a POST. */
  predicate NoPost(t: seq<Effect>)
  {
    forall i :: 0 <= i < |t| ==> !t[i].Post?
  }

  /** True iff some effect of `t` closes the plugin. */
  predicate HasClose(t: seq<Effect>)
  {
    exists i :: 0 <= i < |t| && t[i].Close?
  }

  /** The accumulation loop: `for (const node of nodes)` with `push`. */
  method CollectImageData(nodes: seq<Node>, host: Host) returns (imageData: seq<ImageDatum>, effects: seq<Effect>)
    ensures imageData == ImageDataOf(nodes, Decide(host))
    ensures effects == LoopTrace(nodes, Decide(host))
  {
    imageData := [];
    effects := [];
    var i := 0;
    while i < |nodes|
      invariant 0 <= i <= |nodes|
      invariant imageData == ImageDataOf(nodes[..i], Decide(host))
      invariant effects == LoopTrace(nodes[..i], Decide(host))
    {
      var imageDatum := Process(nodes[i], host);
      if imageDatum.Produced? {
        imageData := imageData + [imageDatum.datum];
      } else {
        effects := effects + [Notify(Notice(imageDatum.reason)), Close(DatumNotFound)];
      }
      assert nodes[..i + 1][..i] == nodes[..i];
      i := i + 1;
    }
    assert nodes[..i] == nodes;
  }

  /** What `postData` adds after its request: nothing when its try block
      completes, otherwise the close of its catch. */
  function RequestOutcome(host: Host): seq<Effect>
  {
    if host.requestSucceeds then [] else [Close(FailureMessage)]
  }

  /** A trace split around one effect: the effect sits right after the
      prefix, and the prefix and the rest are recovered by slicing. */
  lemma SplitAt(pre: seq<Effect>, e: Effect, rest: seq<Effect>)
    ensures var t := pre + [e] + rest;
      && |t| == |pre| + 1 + |rest|
      && t[|pre|] == e
      && t[..|pre|] == pre
      && t[|pre| + 1..] == rest
  {
    var t := pre + [e] + rest;
    assert t[|pre| + 1..] == rest;
  }

  /** The close `HandleMessage` issues for an empty selection, before it carries on. */
  function EmptyPrompt(selection: seq<Node>): seq<Effect>
  {
    if |selection| == 0 then [Close(SelectPrompt)] else []
  }

  /** The request `postData` makes for the submit command. */
  function Request(msg: Message, selection: seq<Node>, host: Host): Effect
  {
    Post(msg.targetUrl, msg.targetToken, SubmitData(msg.kind, host.fileKey, ImageDataOf(selection, Decide(host))))
  }

  /** Every effect of one message, in program order, as the code issues
      them whether or not the host stops at a close. Whatever happens, the
      last effect is the success close, and a request is made exactly for
      the submit command. */
  function HandleMessage(msg: Message, selection: seq<Node>, host: Host): (r: seq<Effect>)
    ensures |r| > 0 && r[|r| - 1] == Close(SentMessage)
    ensures NoPost(r) <==> msg.kind != SubmitCommand
  {
    if msg.kind == SubmitCommand then
      var pre := EmptyPrompt(selection) + LoopTrace(selection, Decide(host));
      var rest := RequestOutcome(host) + [Close(SentMessage)];
      SplitAt(pre, Request(msg, selection, host), rest);
      pre + [Request(msg, selection, host)] + rest
    else
      [Close(SentMessage)]
  }

  /** The submit command's trace in its parts: the empty-selection prompt,
      the loop's effects, the request, what the request's outcome adds, and
      the success close. */
  lemma SubmitTrace(msg: Message, selection: seq<Node>, host: Host)
    requires msg.kind == SubmitCommand
    ensures HandleMessage(msg, selection, host) ==
      EmptyPrompt(selection) + LoopTrace(selection, Decide(host)) + [Request(msg, selection, host)]
      + (RequestOutcome(host) + [Close(SentMessage)])
  {
  }

  /** The effects that happen when the host ends the session at the first
      close: the longest prefix of `t` that stops at its first `Close`. */
  function UntilClose(t: seq<Effect>): (r: seq<Effect>)
    ensures StartsWith(t, r)
    ensures forall i :: 0 <= i < |r| - 1 ==> !r[i].Close?
    ensures |r| < |t| ==> |r| > 0 && r[|r| - 1].Close?
    ensures !HasClose(t) ==> r == t
  {
    if |t| == 0 then []
    else if t[0].Close? then [t[0]]
    else [t[0]] + UntilClose(t[1..])
  }

  /** The accumulation distributes over concatenation of selections, so the
      data keep the selection's order. */
  lemma {:induction false} ImageDataAppend(a: seq<Node>, b: seq<Node>, decide: Node -> Outcome)
    ensures ImageDataOf(a + b, decide) == ImageDataOf(a, decide) + ImageDataOf(b, decide)
    decreases |b|
  {
    if |b| == 0 {
      assert a + b == a;
    } else {
      var b' := b[..|b| - 1];
      assert (a + b)[..|a + b| - 1] == a + b';
      assert (a + b)[|a + b| - 1] == b[|b| - 1];
      ImageDataAppend(a, b', decide);
    }
  }

  /** A datum is in the output exactly when some selected node produced it. */
  lemma {:induction false} ImageDataMembership(nodes: seq<Node>, decide: Node -> Outcome, d: ImageDatum)
    ensures d in ImageDataOf(nodes, decide) <==>
      exists i :: 0 <= i < |nodes| && decide(nodes[i]) == Produced(d)
    decreases |nodes|
  {
    if |nodes| > 0 {
      var init := nodes[..|nodes| - 1];
      var last := decide(nodes[|nodes| - 1]);
      var tail := if last.Produced? then [last.datum] else [];
      ImageDataMembership(init, decide, d);
      assert ImageDataOf(nodes, decide) == ImageDataOf(init, decide) + tail;
      if d in ImageDataOf(nodes, decide) && d !in ImageDataOf(init, decide) {
        assert last == Produced(d);
      }
      if d in ImageDataOf(init, decide) {
        var i :| 0 <= i < |init| && decide(init[i]) == Produced(d);
        assert nodes[i] == init[i];
      }
      if exists i :: 0 <= i < |nodes| && decide(nodes[i]) == Produced(d) {
        var i :| 0 <= i < |nodes| && decide(nodes[i]) == Produced(d);
        if i < |init| {
          assert init[i] == nodes[i];
        } else {
          assert tail == [d];
        }
      }
    }
  }

  /** When every node produces, the output has one datum per node, the
      i-th being the i-th node's. */
  lemma {:induction false} ImageDataAllProduced(nodes: seq<Node>, decide: Node -> Outcome)
    requires forall i :: 0 <= i < |nodes| ==> decide(nodes[i]).Produced?
    ensures |ImageDataOf(nodes, decide)| == |nodes|
    ensures forall i :: 0 <= i < |nodes| ==> ImageDataOf(nodes, decide)[i] == decide(nodes[i]).datum
    decreases |nodes|
  {
    if |nodes| > 0 {
      var init := nodes[..|nodes| - 1];
      var last := nodes[|nodes| - 1];
      forall i | 0 <= i < |init|
        ensures decide(init[i]).Produced?
      {
        assert init[i] == nodes[i];
      }
      ImageDataAllProduced(init, decide);
      var out := ImageDataOf(nodes, decide);
      assert out == ImageDataOf(init, decide) + [decide(last).datum];
      forall i | 0 <= i < |nodes|
        ensures out[i] == decide(nodes[i]).datum
      {
        if i < |init| {
          assert init[i] == nodes[i];
        }
      }
    }
  }

  /** When `processImage` yields a datum for every selected node, the i-th
      datum sent carries the i-th node's id and name and a known content type. */
  lemma ImageDataCopiesNodes(nodes: seq<Node>, host: Host)
    requires forall i :: 0 <= i < |nodes| ==> Process(nodes[i], host).Produced?
    ensures |ImageDataOf(nodes, Decide(host))| == |nodes|
    ensures forall i :: 0 <= i < |nodes| ==>
      var d := ImageDataOf(nodes, Decide(host))[i];
      && d.id == nodes[i].id
      && d.name == nodes[i].name
      && (d.contentType == ImagePng || d.contentType == ImageJpeg || d.contentType == ImageGif)
  {
    ImageDataAllProduced(nodes, Decide(host));
  }

  /** The loop never posts. */
  lemma {:induction false} LoopTraceNoPost(nodes: seq<Node>, decide: Node -> Outcome)
    ensures NoPost(LoopTrace(nodes, decide))
    decreases |nodes|
  {
    if |nodes| > 0 {
      LoopTraceNoPost(nodes[..|nodes| - 1], decide);
    }
  }

  /** The loop's effects come in pairs: each notification is followed
      directly by the "ImageDatum not found" close. */
  lemma {:induction false} LoopTracePairs(nodes: seq<Node>, decide: Node -> Outcome)
    ensures var t := LoopTrace(nodes, decide);
      forall k :: 0 <= k < |t| / 2 ==> t[2 * k].Notify? && t[2 * k + 1] == Close(DatumNotFound)
    decreases |nodes|
  {
    if |nodes| > 0 {
      var init := LoopTrace(nodes[..|nodes| - 1], decide);
      var step := StepTrace(decide(nodes[|nodes| - 1]));
      LoopTracePairs(nodes[..|nodes| - 1], decide);
      var t := init + step;
      forall k | 0 <= k < |t| / 2
        ensures t[2 * k].Notify? && t[2 * k + 1] == Close(DatumNotFound)
      {
        if 2 * k < |init| {
          assert t[2 * k] == init[2 * k] && t[2 * k + 1] == init[2 * k + 1];
        } else {
          assert 2 * k == |init|;
          assert t[2 * k] == step[0] && t[2 * k + 1] == step[1];
        }
      }
    }
  }

  /** A concatenation closes exactly when one of its parts does. */
  lemma HasCloseAppend(a: seq<Effect>, b: seq<Effect>)
    ensures HasClose(a + b) <==> HasClose(a) || HasClose(b)
  {
    if HasClose(a + b) {
      var k :| 0 <= k < |a + b| && (a + b)[k].Close?;
      if k < |a| {
        assert a[k].Close?;
      } else {
        assert b[k - |a|].Close?;
      }
    }
    if HasClose(a) {
      var k :| 0 <= k < |a| && a[k].Close?;
      assert (a + b)[k].Close?;
    }
    if HasClose(b) {
      var k :| 0 <= k < |b| && b[k].Close?;
      assert (a + b)[|a| + k].Close?;
    }
  }

  /** One iteration closes the plugin exactly when its node has no datum. */
  lemma StepTraceCloses(outcome: Outcome)
    ensures HasClose(StepTrace(outcome)) <==> outcome.Skipped?
  {
    var step := StepTrace(outcome);
    if step != [] {
      assert step[1].Close?;
    }
  }

  /** A node without a datum makes the loop close the plugin. */
  lemma {:induction false} SkippedNodeCloses(nodes: seq<Node>, decide: Node -> Outcome, i: nat)
    requires i < |nodes| && decide(nodes[i]).Skipped?
    ensures HasClose(LoopTrace(nodes, decide))
    decreases |nodes|
  {
    var init := nodes[..|nodes| - 1];
    var last := nodes[|nodes| - 1];
    HasCloseAppend(LoopTrace(init, decide), StepTrace(decide(last)));
    if i == |nodes| - 1 {
      StepTraceCloses(decide(last));
    } else {
      assert init[i] == nodes[i];
      SkippedNodeCloses(init, decide, i);
    }
  }

  /** A close in the loop's effects comes from a node without a datum. */
  lemma {:induction false} CloseHasSkippedNode(nodes: seq<Node>, decide: Node -> Outcome) returns (i: nat)
    requires HasClose(LoopTrace(nodes, decide))
    ensures i < |nodes| && decide(nodes[i]).Skipped?
    decreases |nodes|
  {
    var init := nodes[..|nodes| - 1];
    var last := nodes[|nodes| - 1];
    HasCloseAppend(LoopTrace(init, decide), StepTrace(decide(last)));
    StepTraceCloses(decide(last));
    if decide(last).Skipped? {
      i := |nodes| - 1;
    } else {
      i := CloseHasSkippedNode(init, decide);
      assert init[i] == nodes[i];
    }
  }

  /** The loop closes the plugin exactly when some node has no datum. */
  lemma LoopTraceCloses(nodes: seq<Node>, decide: Node -> Outcome)
    ensures HasClose(LoopTrace(nodes, decide)) <==> exists i :: 0 <= i < |nodes| && decide(nodes[i]).Skipped?
  {
    if HasClose(LoopTrace(nodes, decide)) {
      var i := CloseHasSkippedNode(nodes, decide);
    }
    if exists i :: 0 <= i < |nodes| && decide(nodes[i]).Skipped? {
      var i :| 0 <= i < |nodes| && decide(nodes[i]).Skipped?;
      SkippedNodeCloses(nodes, decide, i);
    }
  }

  /** With every node producing, the loop has no effect at all, and it has
      none only then. */
  lemma {:induction false} LoopTraceEmpty(nodes: seq<Node>, decide: Node -> Outcome)
    ensures LoopTrace(nodes, decide) == [] <==> forall i :: 0 <= i < |nodes| ==> decide(nodes[i]).Produced?
    decreases |nodes|
  {
    if |nodes| > 0 {
      var init := nodes[..|nodes| - 1];
      var last := nodes[|nodes| - 1];
      LoopTraceEmpty(init, decide);
      assert LoopTrace(nodes, decide) == LoopTrace(init, decide) + StepTrace(decide(last));
      if forall i :: 0 <= i < |nodes| ==> decide(nodes[i]).Produced? {
        forall i | 0 <= i < |init|
          ensures decide(init[i]).Produced?
        {
          assert init[i] == nodes[i];
        }
        assert decide(last).Produced?;
      } else {
        var i :| 0 <= i < |nodes| && !decide(nodes[i]).Produced?;
        if i == |nodes| - 1 {
          assert |StepTrace(decide(last))| == 2;
        } else {
          assert init[i] == nodes[i];
        }
      }
    }
  }

  /** Once `a` holds a close, what follows it is never reached. */
  lemma {:induction false} UntilCloseStopsInPrefix(a: seq<Effect>, b: seq<Effect>)
    requires HasClose(a)
    ensures UntilClose(a + b) == UntilClose(a)
    decreases |a|
  {
    assert (a + b)[0] == a[0];
    if !a[0].Close? {
      var k :| 0 <= k < |a| && a[k].Close?;
      assert a[1..][k - 1].Close?;
      assert (a + b)[1..] == a[1..] + b;
      UntilCloseStopsInPrefix(a[1..], b);
    }
  }

  /** A message other than the submit command only closes the plugin. */
  lemma OtherMessageOnlyCloses(msg: Message, selection: seq<Node>, host: Host)
    requires msg.kind != SubmitCommand
    ensures NoPost(HandleMessage(msg, selection, host))
    ensures HandleMessage(msg, selection, host) == [Close(SentMessage)]
  {
  }

  /** On the submit command the code posts exactly once, after the loop,
      with the message's URL and token, the message type as event type,
      the file key, and the accumulated data. When `postData`'s try block
      throws, the request is followed by the close of its catch; either way the success close
      comes last. */
  lemma SubmitPostsOnce(msg: Message, selection: seq<Node>, host: Host)
    requires msg.kind == SubmitCommand
    ensures var t := HandleMessage(msg, selection, host);
      var p := if host.requestSucceeds then |t| - 2 else |t| - 3;
      && 0 <= p
      && t[p] == Post(msg.targetUrl, msg.targetToken, SubmitData(SubmitCommand, host.fileKey, ImageDataOf(selection, Decide(host))))
      && NoPost(t[..p])
      && t[p + 1..] == (if host.requestSucceeds then [Close(SentMessage)] else [Close(FailureMessage), Close(SentMessage)])
  {
    var pre := EmptyPrompt(selection) + LoopTrace(selection, Decide(host));
    var rest := RequestOutcome(host) + [Close(SentMessage)];
    SubmitTrace(msg, selection, host);
    SplitAt(pre, Request(msg, selection, host), rest);
    LoopTraceNoPost(selection, Decide(host));
    assert NoPost(pre);
    if host.requestSucceeds {
      assert rest == [Close(SentMessage)];
    } else {
      assert rest == [Close(FailureMessage), Close(SentMessage)];
    }
  }

  /** With an empty selection the code as written goes on to post an empty
      list; a host that ends the session at the first close stops before
      any request, having shown only the prompt to select something. */
  lemma EmptySelection(msg: Message, host: Host)
    requires msg.kind == SubmitCommand
    ensures HandleMessage(msg, [], host) ==
      [Close(SelectPrompt), Post(msg.targetUrl, msg.targetToken, SubmitData(SubmitCommand, host.fileKey, []))]
      + (if host.requestSucceeds then [] else [Close(FailureMessage)])
      + [Close(SentMessage)]
    ensures UntilClose(HandleMessage(msg, [], host)) == [Close(SelectPrompt)]
  {
  }

  /** If the host ends the session at the first close and every node of a
      non-empty selection produces a datum, the request is made and carries
      one datum per node; the session then ends at the success close, or at
      the failure close when `postData`'s try block throws. */
  lemma HaltingSubmitAllProduced(msg: Message, selection: seq<Node>, host: Host)
    requires msg.kind == SubmitCommand
    requires |selection| > 0
    requires forall i :: 0 <= i < |selection| ==> Process(selection[i], host).Produced?
    ensures UntilClose(HandleMessage(msg, selection, host)) ==
      [Post(msg.targetUrl, msg.targetToken, SubmitData(SubmitCommand, host.fileKey, ImageDataOf(selection, Decide(host)))),
       Close(if host.requestSucceeds then SentMessage else FailureMessage)]
    ensures |ImageDataOf(selection, Decide(host))| == |selection|
  {
    LoopTraceEmpty(selection, Decide(host));
    ImageDataAllProduced(selection, Decide(host));
    var t := HandleMessage(msg, selection, host);
    assert UntilClose(t) == [t[0]] + UntilClose(t[1..]);
  }

  /** If the host ends the session at the first close and some node of the
      selection produces no datum, no request is ever made. */
  lemma HaltingSubmitSomeSkipped(msg: Message, selection: seq<Node>, host: Host)
    requires msg.kind == SubmitCommand
    requires exists i :: 0 <= i < |selection| && Process(selection[i], host).Skipped?
    ensures NoPost(UntilClose(HandleMessage(msg, selection, host)))
  {
    var t := HandleMessage(msg, selection, host);
    var loop := LoopTrace(selection, Decide(host));
    var tail := [Post(msg.targetUrl, msg.targetToken, SubmitData(SubmitCommand, host.fileKey, ImageDataOf(selection, Decide(host))))]
      + RequestOutcome(host) + [Close(SentMessage)];
    assert t == loop + tail;
    LoopTraceCloses(selection, Decide(host));
    LoopTraceNoPost(selection, Decide(host));
    UntilCloseStopsInPrefix(loop, tail);
    var h := UntilClose(loop);
    assert StartsWith(loop, h);
    forall i | 0 <= i < |h|
      ensures !h[i].Post?
    {
      assert h[i] == loop[i];
    }
  }

  /** The per-node half of NoFillThenPng: what the loop collects and emits. */
  lemma NoFillThenPngLoop(a: Node, b: Node, host: Host, hash: string, rest: seq<bv8>)
    requires a.fills == Absent
    requires b.fills == Paints([Paint(ImageKind, Some(hash))]) && hash != ""
    requires hash in host.images && host.images[hash] == [0x89, 0x50, 0x4E, 0x47] + rest
    ensures ImageDataOf([a, b], Decide(host)) ==
      [ImageDatum(b.id, b.name, ImagePng, host.encode(host.images[hash]))]
    ensures LoopTrace([a, b], Decide(host)) == [Notify(Notice(NoFills)), Close(DatumNotFound)]
  {
    PngRecognised(rest);
    var d := ImageDatum(b.id, b.name, ImagePng, host.encode(host.images[hash]));
    assert Process(a, host) == Skipped(NoFills);
    assert Process(b, host) == Produced(d);
    assert [a, b][..1] == [a];
    assert [a][..0] == [];
    assert LoopTrace([a], Decide(host)) == [Notify(Notice(NoFills)), Close(DatumNotFound)];
  }

  /** A selection of a node without fills followed by a node whose image is
      a PNG: as written, the first node's notification and a close are
      issued, then a request carrying the second node's datum alone,
      then the failure close if `postData`'s try block throws, and the
      success close. */
  lemma NoFillThenPng(msg: Message, a: Node, b: Node, host: Host, hash: string, rest: seq<bv8>)
    requires msg.kind == SubmitCommand
    requires a.fills == Absent
    requires b.fills == Paints([Paint(ImageKind, Some(hash))]) && hash != ""
    requires hash in host.images && host.images[hash] == [0x89, 0x50, 0x4E, 0x47] + rest
    ensures ImageDataOf([a, b], Decide(host)) ==
      [ImageDatum(b.id, b.name, ImagePng, host.encode(host.images[hash]))]
    ensures HandleMessage(msg, [a, b], host) ==
      [Notify(Notice(NoFills)), Close(DatumNotFound),
       Post(msg.targetUrl, msg.targetToken,
            SubmitData(SubmitCommand, host.fileKey, [ImageDatum(b.id, b.name, ImagePng, host.encode(host.images[hash]))]))]
      + (RequestOutcome(host) + [Close(SentMessage)])
  {
    NoFillThenPngLoop(a, b, host, hash, rest);
    SubmitTrace(msg, [a, b], host);
    var loop := [Notify(Notice(NoFills)), Close(DatumNotFound)];
    assert EmptyPrompt([a, b]) + LoopTrace([a, b], Decide(host)) == loop;
    assert loop + [Request(msg, [a, b], host)] ==
      [Notify(Notice(NoFills)), Close(DatumNotFound),
       Post(msg.targetUrl, msg.targetToken,
            SubmitData(SubmitCommand, host.fileKey, [ImageDatum(b.id, b.name, ImagePng, host.encode(host.images[hash]))]))];
  }
}
