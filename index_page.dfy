/**
  The advanced page's own state and handlers: loading a file (validation, the derived component
  name, and admission of large files to the processing queue) and the queue's pause, resume,
  cancel and retry buttons, each a `map` or `filter` over the previous list, and the queue's
  total progress. The page's state is a value; each handler gives the next one.
*/
module IndexPage {
  import opened Wrappers
  import opened Text
  import opened Dom
  import opened Pages
  import SvgUtils

  datatype Status = Pending | Processing | Completed | Failed | Paused

  /** A queue entry; the `result` a finished entry may carry is not modelled. */
  datatype QueueItem = QueueItem(id: string, name: string, size: nat, status: Status, progress: real, error: Option<string>)

  datatype IndexState = IndexState(svgInput: string, fileName: string, queueItems: seq<QueueItem>)

  const DefaultComponentName := "MyIcon"

  // ---------------------------------------------------------------- loading a file

  /** `content.length / 1024 > 500`, by cross-multiplication. */
  predicate Queued(content: string)
  {
    |content| > 500 * 1024
  }

  lemma QueuedIff(content: string)
    ensures Queued(content) <==> (|content| as real) / 1024.0 > 500.0
  {
    var n := |content| as real;
    assert n / 1024.0 > 500.0 <==> n > 500.0 * 1024.0;
  }

  /** The entry for a large file: named by the derived name (without the fallback), pending, at 0. */
  function NewItem(content: string, name: string, now: nat): QueueItem
  {
    QueueItem("file-" + NatToString(now), DerivedName(name), |content|, Pending, 0.0, None)
  }

  /**
    `handleFileSelect(content, name)` at time `now`. An input the validator rejects changes
    nothing; otherwise the input is taken over, the component name is derived (`MyIcon` when
    it comes out empty), and a file over 500 KiB is appended to the queue.
  */
  function HandleFileSelect(st: IndexState, content: string, name: string, parse: Parser, now: nat): (r: IndexState)
    ensures !SvgUtils.ValidateSvg(content, parse).isValid ==> r == st
    ensures SvgUtils.ValidateSvg(content, parse).isValid ==>
      r.svgInput == content && r.fileName == NameOr(DerivedName(name), DefaultComponentName)
  {
    if !SvgUtils.ValidateSvg(content, parse).isValid then st
    else
      var componentName := DerivedName(name);
      IndexState(content, NameOr(componentName, DefaultComponentName),
        if Queued(content) then st.queueItems + [NewItem(content, name, now)] else st.queueItems)
  }

  /**
    The queue grows by one entry exactly when the file is accepted and over 500 KiB; the entries
    already there stay, in order, and the new one is pending at progress 0 with no error.
  */
  lemma QueueAdmission(st: IndexState, content: string, name: string, parse: Parser, now: nat)
    ensures var r := HandleFileSelect(st, content, name, parse, now);
      |r.queueItems| == |st.queueItems| + 1 <==> SvgUtils.ValidateSvg(content, parse).isValid && Queued(content)
    ensures var r := HandleFileSelect(st, content, name, parse, now);
      |r.queueItems| >= |st.queueItems| && r.queueItems[..|st.queueItems|] == st.queueItems
    ensures var r := HandleFileSelect(st, content, name, parse, now);
      |r.queueItems| > |st.queueItems| ==>
        var item := r.queueItems[|st.queueItems|];
        item.status == Pending && item.progress == 0.0 && item.error == None && item.size == |content|
  {
    var r := HandleFileSelect(st, content, name, parse, now);
    var grows := SvgUtils.ValidateSvg(content, parse).isValid && Queued(content);
    assert r.queueItems == if grows then st.queueItems + [NewItem(content, name, now)] else st.queueItems;
    QueueGrowth(st.queueItems, r.queueItems, NewItem(content, name, now), grows);
  }

  /** A list that is the old one, or the old one and `x`, keeps the old entries in front. */
  lemma QueueGrowth(before: seq<QueueItem>, after: seq<QueueItem>, x: QueueItem, grows: bool)
    requires after == if grows then before + [x] else before
    ensures |after| == |before| + 1 <==> grows
    ensures |after| >= |before| && after[..|before|] == before
    ensures |after| > |before| ==> after[|before|] == x
  {
    if grows {
      assert after[..|before|] == before;
    }
  }

  /** An accepted file's component name is never empty and holds no `-`, `_` or whitespace. */
  lemma FileNameShape(st: IndexState, content: string, name: string, parse: Parser, now: nat)
    requires SvgUtils.ValidateSvg(content, parse).isValid
    ensures var r := HandleFileSelect(st, content, name, parse, now);
      r.fileName != [] && NoSeparator(r.fileName)
  {
    DefaultPlain();
    FallbackShape(name, DefaultComponentName);
  }

  lemma DefaultPlain()
    ensures NoSeparator(DefaultComponentName)
  {
    var s := DefaultComponentName;
    assert s == ['M', 'y', 'I', 'c', 'o', 'n'];
    forall i | 0 <= i < |s|
      ensures !IsSeparator(s[i])
    {
      assert IsUpper(s[i]) || IsLower(s[i]);
    }
  }

  // ---------------------------------------------------------------- the queue buttons

  /** Every entry with the id gets the status, whatever it had; the others stay as they are. */
  function WithStatus(items: seq<QueueItem>, id: string, status: Status): (r: seq<QueueItem>)
    ensures |r| == |items|
    ensures forall i :: 0 <= i < |items| ==>
      r[i] == if items[i].id == id then items[i].(status := status) else items[i]
  {
    if items == [] then []
    else [if items[0].id == id then items[0].(status := status) else items[0]] + WithStatus(items[1..], id, status)
  }

  /** `handleQueuePause(id)` */
  function Pause(items: seq<QueueItem>, id: string): seq<QueueItem>
  {
    WithStatus(items, id, Paused)
  }

  /** `handleQueueResume(id)` */
  function Resume(items: seq<QueueItem>, id: string): seq<QueueItem>
  {
    WithStatus(items, id, Processing)
  }

  /** `handleQueueCancel(id)`: the entries with another id, in their order. */
  function Cancel(items: seq<QueueItem>, id: string): (r: seq<QueueItem>)
    ensures |r| <= |items|
    ensures forall x :: x in r <==> x in items && x.id != id
  {
    if items == [] then []
    else if items[0].id == id then Cancel(items[1..], id)
    else [items[0]] + Cancel(items[1..], id)
  }

  /** `handleQueueRetry(id)`: matching entries are pending again and lose their error. */
  function Retry(items: seq<QueueItem>, id: string): (r: seq<QueueItem>)
    ensures |r| == |items|
    ensures forall i :: 0 <= i < |items| ==>
      r[i] == if items[i].id == id then items[i].(status := Pending, error := None) else items[i]
  {
    if items == [] then []
    else [if items[0].id == id then items[0].(status := Pending, error := None) else items[0]] + Retry(items[1..], id)
  }

  /** Pausing twice is pausing once, and resuming forgets any earlier pause: the last button wins. */
  lemma LastStatusWins(items: seq<QueueItem>, id: string)
    ensures Resume(Pause(items, id), id) == Resume(items, id)
    ensures Pause(Pause(items, id), id) == Pause(items, id)
  {
    LastStatus(items, id, Paused, Processing);
    LastStatus(items, id, Paused, Paused);
  }

  /** Of two status changes to the same id only the second shows. */
  lemma LastStatus(items: seq<QueueItem>, id: string, s: Status, t: Status)
    ensures WithStatus(WithStatus(items, id, s), id, t) == WithStatus(items, id, t)
  {
    var a, b := WithStatus(WithStatus(items, id, s), id, t), WithStatus(items, id, t);
    assert forall i :: 0 <= i < |items| ==> a[i] == b[i];
  }

  /** The number of entries with the id. */
  function CountId(items: seq<QueueItem>, id: string): (n: nat)
    ensures n <= |items|
  {
    if items == [] then 0 else (if items[0].id == id then 1 else 0) + CountId(items[1..], id)
  }

  /** Cancelling keeps the order: it distributes over concatenation and drops exactly the entries with the id. */
  lemma {:induction false} CancelKeepsOrder(a: seq<QueueItem>, b: seq<QueueItem>, id: string)
    ensures Cancel(a + b, id) == Cancel(a, id) + Cancel(b, id)
    ensures |Cancel(a, id)| == |a| - CountId(a, id)
    decreases |a|
  {
    if a == [] {
      assert a + b == b;
    } else {
      assert (a + b)[0] == a[0] && (a + b)[1..] == a[1..] + b;
      CancelKeepsOrder(a[1..], b, id);
      if a[0].id != id {
        assert Cancel(a + b, id) == [a[0]] + (Cancel(a[1..], id) + Cancel(b, id));
      }
    }
  }

  /** A status change on the entries being cancelled makes no difference to what is left. */
  lemma {:induction false} CancelAfterStatus(items: seq<QueueItem>, id: string, s: Status)
    ensures Cancel(WithStatus(items, id, s), id) == Cancel(items, id)
    ensures Cancel(Retry(items, id), id) == Cancel(items, id)
    decreases |items|
  {
    if items != [] {
      CancelAfterStatus(items[1..], id, s);
      assert WithStatus(items, id, s)[1..] == WithStatus(items[1..], id, s);
      assert Retry(items, id)[1..] == Retry(items[1..], id);
    }
  }

  /** Cancelling an id leaves no entry with it. */
  lemma CancelRemovesAll(items: seq<QueueItem>, id: string)
    ensures CountId(Cancel(items, id), id) == 0
  {
    if items != [] {
      CancelRemovesAll(items[1..], id);
    }
  }

  // ---------------------------------------------------------------- total progress

  function ProgressSum(items: seq<QueueItem>): real
  {
    if items == [] then 0.0 else items[0].progress + ProgressSum(items[1..])
  }

  /** `totalQueueProgress`: the mean progress of the entries, 0 for an empty queue. */
  function TotalProgress(items: seq<QueueItem>): real
  {
    if |items| > 0 then ProgressSum(items) / (|items| as real) else 0.0
  }

  predicate InPercent(items: seq<QueueItem>)
  {
    forall i :: 0 <= i < |items| ==> 0.0 <= items[i].progress <= 100.0
  }

  lemma {:induction false} SumBounds(items: seq<QueueItem>)
    requires InPercent(items)
    ensures 0.0 <= ProgressSum(items) <= 100.0 * (|items| as real)
    decreases |items|
  {
    if items != [] {
      assert InPercent(items[1..]) by {
        assert forall i :: 0 <= i < |items[1..]| ==> items[1..][i] == items[i + 1];
      }
      SumBounds(items[1..]);
    }
  }

  /** With every entry between 0 and 100, so is the total. */
  lemma TotalInPercent(items: seq<QueueItem>)
    requires InPercent(items)
    ensures 0.0 <= TotalProgress(items) <= 100.0
  {
    SumBounds(items);
    if |items| > 0 {
      var n := |items| as real;
      assert ProgressSum(items) / n <= 100.0 * n / n;
    }
  }

  /** Status buttons move no progress bar: the total is the same after them. */
  lemma {:induction false} StatusKeepsProgress(items: seq<QueueItem>, id: string, s: Status)
    ensures ProgressSum(WithStatus(items, id, s)) == ProgressSum(items)
    ensures ProgressSum(Retry(items, id)) == ProgressSum(items)
    ensures TotalProgress(WithStatus(items, id, s)) == TotalProgress(items)
    ensures TotalProgress(Retry(items, id)) == TotalProgress(items)
    decreases |items|
  {
    if items != [] {
      StatusKeepsProgress(items[1..], id, s);
      assert WithStatus(items, id, s)[1..] == WithStatus(items[1..], id, s);
      assert Retry(items, id)[1..] == Retry(items[1..], id);
    }
  }
}
