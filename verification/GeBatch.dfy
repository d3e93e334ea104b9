/** Submission and batching of command nodes, ge/hcge_linux.c. */
module GeBatch {
  import opened Options
  import opened GeNode
  import opened GeBuild

  // ----- concatenated nodes can be taken apart again -----

  function Concat(nodes: seq<seq<Word>>): seq<Word> {
    if nodes == [] then [] else nodes[0] + Concat(nodes[1..])
  }

  /** Cuts a buffer into nodes by the lengths their headers announce. */
  function Parse(ws: seq<Word>): Option<seq<seq<Word>>>
    decreases |ws|
  {
    if ws == [] then Some([])
    else
      var n := NodeWords(ws[0]);
      if n > |ws| || !IsHeader(ws[0]) then None
      else match Parse(ws[n..])
        case None => None
        case Some(rest) => Some([ws[..n]] + rest)
  }

  predicate AllWellFormed(nodes: seq<seq<Word>>) {
    forall i | 0 <= i < |nodes| :: WellFormed(nodes[i])
  }

  /** A batch buffer determines the nodes in it. */
  lemma {:induction false} ParseConcat(nodes: seq<seq<Word>>)
    requires AllWellFormed(nodes)
    ensures Parse(Concat(nodes)) == Some(nodes)
    decreases |nodes|
  {
    hide NodeWords, IsHeader;
    if nodes != [] {
      ParseConcat(nodes[1..]);
      var ws := Concat(nodes);
      var n := |nodes[0]|;
      assert WellFormed(nodes[0]);
      assert ws == nodes[0] + Concat(nodes[1..]);
      assert ws[0] == nodes[0][0] && ws[..n] == nodes[0] && ws[n..] == Concat(nodes[1..]);
      assert n == NodeWords(ws[0]) && n <= |ws| && IsHeader(ws[0]);
      assert [ws[..n]] + nodes[1..] == nodes;
    }
  }

  lemma {:induction false} ConcatAppend(nodes: seq<seq<Word>>, node: seq<Word>)
    ensures Concat(nodes + [node]) == Concat(nodes) + node
    decreases |nodes|
  {
    var all := nodes + [node];
    if nodes != [] {
      ConcatAppend(nodes[1..], node);
      assert all[1..] == nodes[1..] + [node];
      assert nodes[0] + (Concat(nodes[1..]) + node) == nodes[0] + Concat(nodes[1..]) + node;
    } else {
      assert all[1..] == [];
    }
  }

  // ----- a batch as a value -----

  /** `limit` is the command queue size in words; `failed` is the sticky error. */
  datatype Batch = Batch(limit: nat, capacity: nat, data: seq<Word>, failed: bool)

  /** `hcge_linux_submit` while a batch is open; the second result is success. */
  function Add(b: Batch, node: seq<Word>): (Batch, bool) {
    if node == [] || |node| > b.limit then (b, false)
    else if b.failed then (b, false)
    else if |b.data| + |node| > b.capacity then (b.(failed := true), false)
    else (b.(data := b.data + node), true)
  }

  function AddAll(b: Batch, nodes: seq<seq<Word>>): Batch
    decreases |nodes|
  {
    if nodes == [] then b else AddAll(Add(b, nodes[0]).0, nodes[1..])
  }

  /** What `hcge_batch_end` hands to the device. */
  function Submitted(b: Batch): Option<seq<Word>> {
    if b.failed || b.data == [] || |b.data| > b.limit then None else Some(b.data)
  }

  /** The nodes that pass the size check at the head of `hcge_linux_submit`. */
  function Kept(limit: nat, nodes: seq<seq<Word>>): (ks: seq<seq<Word>>)
    decreases |nodes|
  {
    if nodes == [] then []
    else (if nodes[0] == [] || |nodes[0]| > limit then [] else [nodes[0]]) + Kept(limit, nodes[1..])
  }

  /** The buffer holds the kept nodes in order, or it overflowed and the batch has failed. */
  lemma {:induction false} AddAllKeeps(b: Batch, nodes: seq<seq<Word>>)
    requires |b.data| <= b.capacity
    ensures var e := AddAll(b, nodes); var all := b.data + Concat(Kept(b.limit, nodes));
            && e.limit == b.limit && e.capacity == b.capacity
            && (e.failed <==> b.failed || |all| > b.capacity)
            && (!e.failed ==> e.data == all)
    decreases |nodes|
  {
    if nodes == [] {
      assert b.data + [] == b.data;
    } else {
      var n := nodes[0];
      var rest := Kept(b.limit, nodes[1..]);
      AddAllKeeps(Add(b, n).0, nodes[1..]);
      if n == [] || |n| > b.limit {
        assert Kept(b.limit, nodes) == rest;
      } else {
        var ks := [n] + rest;
        assert Kept(b.limit, nodes) == ks && ks[1..] == rest;
        assert b.data + (n + Concat(rest)) == b.data + n + Concat(rest);
      }
    }
  }

  /**
   All or nothing: a batch submits the concatenation of all nodes that passed the size
   check, exactly when that is not empty and fits both the buffer and the queue.
   */
  lemma {:induction false} BatchIsAllOrNothing(limit: nat, capacity: nat, nodes: seq<seq<Word>>)
    ensures var all := Concat(Kept(limit, nodes));
            Submitted(AddAll(Batch(limit, capacity, [], false), nodes)) ==
            if all != [] && |all| <= capacity && |all| <= limit then Some(all) else None
  {
    AddAllKeeps(Batch(limit, capacity, [], false), nodes);
    assert [] + Concat(Kept(limit, nodes)) == Concat(Kept(limit, nodes));
  }

  lemma {:induction false} KeptLength(limit: nat, nodes: seq<seq<Word>>)
    ensures |Concat(Kept(limit, nodes))| <= |Concat(nodes)|
    ensures (forall i | 0 <= i < |nodes| :: |nodes[i]| <= limit) ==> Concat(Kept(limit, nodes)) == Concat(nodes)
    ensures (exists i :: 0 <= i < |nodes| && |nodes[i]| > limit) ==> |Concat(Kept(limit, nodes))| < |Concat(nodes)|
    decreases |nodes|
  {
    if nodes != [] {
      var n, rest := nodes[0], nodes[1..];
      KeptLength(limit, rest);
      if n == [] || |n| > limit {
        assert Kept(limit, nodes) == Kept(limit, rest);
        assert [] + Concat(rest) == Concat(rest);
      } else {
        var ks := [n] + Kept(limit, rest);
        assert Kept(limit, nodes) == ks && ks[1..] == Kept(limit, rest);
        assert Concat(ks) == n + Concat(Kept(limit, rest));
      }
      if exists i :: 0 <= i < |nodes| && |nodes[i]| > limit {
        var i :| 0 <= i < |nodes| && |nodes[i]| > limit;
        assert i > 0 ==> rest[i - 1] == nodes[i];
      }
    }
  }

  /**
   A caller that ignores the return values gets everything or nothing exactly when no node
   exceeds the queue: an oversized node is refused without failing the batch.
   */
  lemma {:induction false} CompleteIffNoneOversized(limit: nat, capacity: nat, nodes: seq<seq<Word>>)
    requires Submitted(AddAll(Batch(limit, capacity, [], false), nodes)).Some?
    ensures Submitted(AddAll(Batch(limit, capacity, [], false), nodes)) == Some(Concat(nodes)) <==>
            forall i | 0 <= i < |nodes| :: |nodes[i]| <= limit
  {
    BatchIsAllOrNothing(limit, capacity, nodes);
    KeptLength(limit, nodes);
  }

  /** What the device receives parses back into the kept nodes. */
  lemma {:induction false} SubmissionParses(limit: nat, capacity: nat, nodes: seq<seq<Word>>)
    requires AllWellFormed(nodes) && Submitted(AddAll(Batch(limit, capacity, [], false), nodes)).Some?
    ensures Parse(Submitted(AddAll(Batch(limit, capacity, [], false), nodes)).value) == Some(Kept(limit, nodes))
  {
    BatchIsAllOrNothing(limit, capacity, nodes);
    KeptWellFormed(limit, nodes);
    ParseConcat(Kept(limit, nodes));
  }

  lemma {:induction false} KeptWellFormed(limit: nat, nodes: seq<seq<Word>>)
    requires AllWellFormed(nodes)
    ensures AllWellFormed(Kept(limit, nodes))
    decreases |nodes|
  {
    hide WellFormed;
    if nodes != [] {
      assert WellFormed(nodes[0]);
      KeptWellFormed(limit, nodes[1..]);
    }
  }

  // ----- the code -----

  /** What a submit ioctl returns. */
  datatype IoResult = Done | Busy | Failed

  /** The answers of the device to one submission: first try, drain of the queue, second try. */
  datatype Io = Io(first: IoResult, drained: bool, second: IoResult)
  {
    /** The node is taken: at once, or after a busy queue has been drained. */
    predicate Accepts() {
      first == Done || (first == Busy && drained && second == Done)
    }
  }

  class BatchState {
    var context: Context?
    const buffer: array<Word>
    var capacity: nat
    var words: nat
    /** 0, or the sticky negative error. */
    var error: int

    constructor (buffer: array<Word>)
      ensures this.buffer == buffer && context == null && words == 0 && capacity == 0
    {
      this.buffer := buffer;
      context, capacity, words, error := null, 0, 0, 0;
    }

    ghost predicate Valid()
      reads this
    {
      words <= capacity <= buffer.Length
    }

    ghost function View(limit: nat): Batch
      requires Valid()
      reads this, buffer
    {
      Batch(limit, capacity, buffer[..words], error != 0)
    }
  }

  class Context {
    const open: bool
    /** Command queue size in words. */
    const queueWords: nat
    var batch: BatchState?
    /** The submissions the device has accepted, in order. */
    var device: seq<seq<Word>>

    constructor (open: bool, queueWords: nat)
      ensures this.open == open && this.queueWords == queueWords && batch == null && device == []
    {
      this.open, this.queueWords, batch, device := open, queueWords, null, [];
    }

    /** The submit ioctl: the device takes the whole node or refuses it. */
    method Ioctl(node: seq<Word>, answer: IoResult)
      modifies this`device
      ensures device == if answer == Done then old(device) + [node] else old(device)
    {
      if answer == Done {
        device := device + [node];
      }
    }

    /** The unbatched half of `hcge_linux_submit`: one retry after the queue has drained. */
    method SubmitNow(node: seq<Word>, io: Io) returns (ret: int)
      modifies this`device
      ensures ret <= 0 && (ret == 0 <==> io.Accepts())
      ensures device == if ret == 0 then old(device) + [node] else old(device)
    {
      Ioctl(node, io.first);
      if io.first == Done {
        return 0;
      }
      if io.first != Busy {
        return -1;
      }
      if !io.drained {
        return -5;
      }
      Ioctl(node, io.second);
      return if io.second == Done then 0 else -16;
    }

    ghost function Footprint(): set<object>
      reads this
    {
      {this} + if batch == null then {} else {batch, batch.buffer}
    }

    /** The memory of an open batch is in order; the calls check everything else themselves. */
    ghost predicate Ready()
      reads Footprint()
    {
      batch != null ==> batch.Valid()
    }

    /** The words that have been taken over, by the open batch or by the device. */
    ghost function Sent(): seq<Word>
      requires Ready()
      reads Footprint()
    {
      if batch == null then Concat(device) else batch.buffer[..batch.words]
    }

    /** The batch or the device will take the node over. */
    ghost predicate Takes(node: seq<Word>, io: Io)
      requires Ready()
      reads Footprint()
    {
      && open && node != [] && |node| <= queueWords
      && if batch == null then io.Accepts() else batch.context == this && Add(batch.View(queueWords), node).1
    }

    /** `hcge_linux_submit`: a node is taken over whole or not at all. */
    method Submit(node: seq<Word>, io: Io) returns (ret: int)
      requires Ready()
      modifies Footprint()
      ensures Ready() && batch == old(batch) && Footprint() == old(Footprint())
      ensures ret <= 0 && (ret == 0 <==> old(Takes(node, io)))
      ensures Sent() == if ret == 0 then old(Sent()) + node else old(Sent())
    {
      if !open || node == [] || |node| > queueWords {
        return -22;
      }
      if batch != null {
        ret := SubmitBatched(node);
      } else {
        ret := SubmitNow(node, io);
        ConcatAppend(old(device), node);
      }
    }

    /** `hcge_linux_submit` into the open batch, if it is this context's. */
    method SubmitBatched(node: seq<Word>) returns (ret: int)
      requires batch != null && batch.Valid()
      requires node != [] && |node| <= queueWords
      modifies batch, batch.buffer
      ensures batch.Valid() && batch.context == old(batch.context) && batch.capacity == old(batch.capacity)
      ensures ret <= 0
      ensures batch.context != this ==> ret < 0 && batch.View(queueWords) == old(batch.View(queueWords))
      ensures batch.context == this ==>
                (ret == 0) == Add(old(batch.View(queueWords)), node).1 &&
                batch.View(queueWords) == Add(old(batch.View(queueWords)), node).0
    {
      if batch.context != this || batch.error != 0 {
        return if batch.error < 0 then batch.error else -22;
      }
      if |node| > batch.capacity - batch.words {
        batch.error := -28;
        return -28;
      }
      ghost var before := batch.buffer[..batch.words];
      var at := batch.words;
      forall i | 0 <= i < |node| {
        batch.buffer[at + i] := node[i];
      }
      batch.words := at + |node|;
      assert batch.buffer[..batch.words] == before + node;
      return 0;
    }

    /** `hcge_batch_begin`. */
    method BatchBegin(b: BatchState, capacity: nat) returns (ret: int)
      requires capacity <= b.buffer.Length
      modifies this, b
      ensures ret == 0 <==> open && capacity > 0 && old(batch) == null
      ensures ret != 0 ==> batch == old(batch)
      ensures ret == 0 ==> batch == b && b.context == this && b.Valid() &&
                           b.View(queueWords) == Batch(queueWords, capacity, [], false)
      ensures device == old(device)
    {
      if !open || capacity == 0 || batch != null {
        return -22;
      }
      b.context, b.capacity, b.words, b.error := this, capacity, 0, 0;
      batch := b;
      return 0;
    }
  }

  /**
   `hcge_batch_end`: a batch that is not open is refused; an open one is closed, and the device
   gets all of it or nothing. `synced` is the result of the closing wait.
   */
  method BatchEnd(b: BatchState, wait: bool, io: Io, synced: int) returns (ret: int)
    requires b.Valid()
    modifies b, b.context
    ensures old(b.context) == null ==> ret < 0 && b.context == null
    ensures old(b.context) != null && old(b.context.batch) != b ==>
              ret < 0 && b.context == old(b.context) &&
              b.context.batch == old(b.context.batch) && b.context.device == old(b.context.device)
    ensures old(b.context) != null && old(b.context.batch) == b ==>
              var ctx := old(b.context);
              var all := Submitted(old(b.View(b.context.queueWords)));
              var sent := all.Some? && ctx.open && io.Accepts();
              && b.context == null && ctx.batch == null
              && ctx.device == (if sent then old(b.context.device) + [all.value] else old(b.context.device))
              && (ret == 0 <==> old(b.error) == 0 && (old(b.words) == 0 || sent) && (wait ==> synced == 0))
  {
    if b.context == null || b.context.batch != b {
      return -22;
    }
    var ctx: Context := b.context;
    ctx.batch := null;
    ret := b.error;
    if ret == 0 && b.words > 0 {
      var data := b.buffer[..b.words];
      if !ctx.open || |data| > ctx.queueWords {
        ret := -22;
      } else {
        ret := ctx.SubmitNow(data, io);
      }
    }
    if ret == 0 && wait {
      ret := synced;
    }
    b.context := null;
  }
}
