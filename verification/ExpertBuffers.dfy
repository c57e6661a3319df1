/**
 Collecting the weights of a mixture-of-experts model: the tensors of each block are buffered by
 name as they arrive, stacked when the block is complete, and whatever is left at the end is an error.
 */
module ExpertBuffers {
  import opened Wrappers

  datatype Wid = W1 | W2 | W3

  /** The weight `wid` of expert `xid` of block `bid`; anything else that mentions the experts is Other. */
  datatype Name = Expert(bid: nat, xid: nat, wid: Wid) | Other(text: string)

  datatype Arrival<T> = Arrival(bid: nat, name: Name, data: T)

  /** A stacked tensor: slice x is expert x's data. */
  datatype Merged<T> = Merged(bid: nat, wid: Wid, slices: seq<T>)

  datatype Error = KeyError | IndexError | EmptyStack | UnprocessedExperts(names: set<Name>)

  type Buffer<T> = map<Name, T>

  // ---------------------------------------------------------------- one arrival

  ghost function Names(bid: nat, n: nat, wid: Wid): set<Name> {
    set x | 0 <= x < n :: Expert(bid, x, wid)
  }

  const WIDS: seq<Wid> := [W1, W2, W3]

  /** The names of the first `i` of the three weights. */
  ghost function Taken(bid: nat, n: nat, i: nat): set<Name>
    requires i <= 3
  {
    if i == 0 then {} else Taken(bid, n, i - 1) + Names(bid, n, WIDS[i - 1])
  }

  ghost function AllNames(bid: nat, n: nat): set<Name> {
    Taken(bid, n, 3)
  }

  ghost function Stack<T>(buffer: Buffer<T>, bid: nat, n: nat, wid: Wid): Merged<T>
    requires Names(bid, n, wid) <= buffer.Keys
  {
    Merged(bid, wid, seq(n, x requires 0 <= x < n =>
      assert Expert(bid, x, wid) in Names(bid, n, wid);
      buffer[Expert(bid, x, wid)]))
  }

  /** The stacked tensors of the first `i` of the three weights. */
  ghost function StacksUpTo<T>(buffer: Buffer<T>, bid: nat, n: nat, i: nat): seq<Merged<T>>
    requires i <= 3 && Taken(bid, n, i) <= buffer.Keys
  {
    if i == 0 then [] else StacksUpTo(buffer, bid, n, i - 1) + [Stack(buffer, bid, n, WIDS[i - 1])]
  }

  ghost function Stacks<T>(buffer: Buffer<T>, bid: nat, n: nat): seq<Merged<T>>
    requires AllNames(bid, n) <= buffer.Keys
  {
    StacksUpTo(buffer, bid, n, 3)
  }

  datatype Step<T> = Step(buffer: Buffer<T>, emitted: seq<Merged<T>>)

  /** A block's buffer takes one more tensor. */
  ghost function Arrive<T>(buffer: Buffer<T>, n: nat, a: Arrival<T>): Result<Step<T>, Error> {
    var filled := buffer[a.name := a.data];
    if |filled| < n * 3 then Success(Step(filled, []))
    else if n == 0 then Failure(EmptyStack)
    else if AllNames(a.bid, n) <= filled.Keys
    then Success(Step(filled - AllNames(a.bid, n), Stacks(filled, a.bid, n)))
    else Failure(KeyError)
  }

  class ExpertBuffers<T> {
    const blockCount: nat
    const nExperts: nat
    var experts: Option<seq<Buffer<T>>>

    /** The buffers, which exist from the first expert on. */
    ghost function Buffers(): seq<Buffer<T>>
      reads this
    {
      if experts.Some? then experts.value else Empty(blockCount)
    }

    constructor (blockCount: nat, nExperts: nat)
      ensures this.blockCount == blockCount && this.nExperts == nExperts
      ensures experts == None
    {
      this.blockCount := blockCount;
      this.nExperts := nExperts;
      experts := None;
    }

    method ModifyTensors(a: Arrival<T>) returns (r: Result<seq<Merged<T>>, Error>)
      modifies this
      ensures a.bid >= |old(Buffers())| ==> r == Failure(IndexError)
      ensures a.bid < |old(Buffers())| ==>
        match Arrive(old(Buffers())[a.bid], nExperts, a)
        case Failure(e) => r == Failure(e)
        case Success(step) =>
          r == Success(step.emitted) && experts.Some? && Buffers() == old(Buffers())[a.bid := step.buffer]
    {
      if experts == None {
        experts := Some(Empty(blockCount));
      }
      if a.bid >= |experts.value| {
        return Failure(IndexError);
      }
      var filled := experts.value[a.bid][a.name := a.data];
      experts := Some(experts.value[a.bid := filled]);
      if |filled| < nExperts * 3 {
        return Success([]);
      }
      r := MergeExperts(a.bid, filled);
    }

    /** Merge the experts of a block into one tensor per weight, taking them out of the buffer. */
    method MergeExperts(bid: nat, filled: Buffer<T>) returns (r: Result<seq<Merged<T>>, Error>)
      requires experts.Some? && bid < |experts.value| && experts.value[bid] == filled
      modifies this
      ensures nExperts == 0 ==> r == Failure(EmptyStack)
      ensures nExperts > 0 && !(AllNames(bid, nExperts) <= filled.Keys) ==> r == Failure(KeyError)
      ensures nExperts > 0 && AllNames(bid, nExperts) <= filled.Keys ==>
        && r == Success(Stacks(filled, bid, nExperts))
        && experts == Some(old(experts.value)[bid := filled - AllNames(bid, nExperts)])
    {
      var tensors: seq<Merged<T>> := [];
      ghost var before, gone := experts.value, {};
      TakeOut(before, bid, filled, gone, Other(""));
      assert before[bid := filled] == before;
      for i := 0 to 3
        invariant Holds(before, bid, filled, gone)
        invariant gone == Taken(bid, nExperts, i) <= filled.Keys && (i > 0 ==> nExperts > 0)
        invariant tensors == StacksUpTo(filled, bid, nExperts, i)
      {
        var wid := WIDS[i];
        var datas: seq<T> := [];
        ghost var taken := gone;
        for xid := 0 to nExperts
          invariant Holds(before, bid, filled, gone)
          invariant gone == taken + Names(bid, xid, wid)
          invariant Names(bid, xid, wid) <= filled.Keys && datas == Stack(filled, bid, xid, wid).slices
        {
          var ename := Expert(bid, xid, wid);
          NextName(bid, nExperts, i, xid);
          if ename !in experts.value[bid] {
            return Failure(KeyError);
          }
          TakeOut(before, bid, filled, gone, ename);
          datas := datas + [experts.value[bid][ename]];
          experts := Some(experts.value[bid := experts.value[bid] - {ename}]);
          gone := gone + {ename};
        }
        if |datas| == 0 {
          return Failure(EmptyStack);
        }
        tensors := tensors + [Merged(bid, wid, datas)];
      }
      return Success(tensors);
    }

    /** The buffers with block `bid` holding `filled` less what has been taken out of it. */
    ghost predicate Holds(before: seq<Buffer<T>>, bid: nat, filled: Buffer<T>, gone: set<Name>)
      reads this
    {
      bid < |before| && experts == Some(before[bid := filled - gone])
    }

    /** The check at the end of the conversion. */
    method Finish() returns (r: Result<(), Error>)
      ensures r == if Leftovers(Buffers()) == {} then Success(()) else Failure(UnprocessedExperts(Leftovers(Buffers())))
    {
      if experts == None {
        return Success(());
      }
      var names: set<Name> := {};
      for b := 0 to |experts.value|
        invariant names == Leftovers(experts.value[..b])
      {
        assert experts.value[..b + 1] == experts.value[..b] + [experts.value[b]];
        names := names + experts.value[b].Keys;
      }
      assert experts.value[..|experts.value|] == experts.value;
      r := if |names| > 0 then Failure(UnprocessedExperts(names)) else Success(());
    }
  }

  function Empty<T>(blocks: nat): seq<Buffer<T>> {
    seq(blocks, _ => map[])
  }

  ghost function Leftovers<T>(buffers: seq<Buffer<T>>): set<Name> {
    set b, name | 0 <= b < |buffers| && name in buffers[b] :: name
  }

  lemma NamesIn(bid: nat, n: nat, i: nat)
    requires i <= 3
    ensures forall name :: name in Taken(bid, n, i) <==>
              name.Expert? && name.bid == bid && name.xid < n && exists w :: 0 <= w < i && name.wid == WIDS[w]
  {
    if i > 0 {
      NamesIn(bid, n, i - 1);
    }
  }

  lemma NextName(bid: nat, n: nat, i: nat, xid: nat)
    requires i < 3 && xid < n
    ensures var ename := Expert(bid, xid, WIDS[i]);
      && Names(bid, xid + 1, WIDS[i]) == Names(bid, xid, WIDS[i]) + {ename}
      && ename !in Taken(bid, n, i) + Names(bid, xid, WIDS[i])
      && ename in AllNames(bid, n)
  {
    NamesIn(bid, n, i);
    NamesIn(bid, n, 3);
  }

  lemma TakeOut<T>(before: seq<Buffer<T>>, bid: nat, filled: Buffer<T>, gone: set<Name>, name: Name)
    requires bid < |before|
    ensures before[bid := filled - gone][bid := before[bid := filled - gone][bid] - {name}]
         == before[bid := filled - (gone + {name})]
    ensures before[bid := filled - {}] == before[bid := filled]
  {
    assert filled - gone - {name} == filled - (gone + {name});
    assert filled - {} == filled;
  }

  // ---------------------------------------------------------------- whole conversions

  datatype Trace<T> = Trace(buffers: seq<Buffer<T>>, emitted: seq<Merged<T>>)

  /** The arrivals handled one after another, from no buffers. */
  ghost function Run<T>(blocks: nat, n: nat, arrivals: seq<Arrival<T>>): Result<Trace<T>, Error> {
    if arrivals == [] then Success(Trace(Empty(blocks), []))
    else
      var a := arrivals[|arrivals| - 1];
      match Run(blocks, n, arrivals[..|arrivals| - 1])
      case Failure(e) => Failure(e)
      case Success(t) =>
        if a.bid >= |t.buffers| then Failure(IndexError)
        else match Arrive(t.buffers[a.bid], n, a)
          case Failure(e) => Failure(e)
          case Success(step) => Success(Trace(t.buffers[a.bid := step.buffer], t.emitted + step.emitted))
  }

  /** Every tensor belongs to a block that exists and an expert that exists, and none comes twice. */
  ghost predicate Proper<T>(blocks: nat, n: nat, arrivals: seq<Arrival<T>>) {
    && (forall k :: 0 <= k < |arrivals| ==>
          arrivals[k].bid < blocks && arrivals[k].name in AllNames(arrivals[k].bid, n))
    && (forall k, l :: 0 <= k < l < |arrivals| ==> arrivals[k].name != arrivals[l].name)
  }

  /** What has arrived for block `b`; HaveMeans says so by position. */
  ghost function Have<T>(arrivals: seq<Arrival<T>>, b: nat): Buffer<T> {
    if arrivals == [] then map[]
    else
      var a := arrivals[|arrivals| - 1];
      var before := Have(arrivals[..|arrivals| - 1], b);
      if a.bid == b then before[a.name := a.data] else before
  }

  ghost predicate Complete<T>(n: nat, arrivals: seq<Arrival<T>>, b: nat) {
    Have(arrivals, b).Keys == AllNames(b, n)
  }

  /** What should come out: a block's three stacks when its last tensor arrives, nothing before or after. */
  ghost function Expected<T>(n: nat, arrivals: seq<Arrival<T>>): seq<Merged<T>> {
    if arrivals == [] then []
    else
      var b := arrivals[|arrivals| - 1].bid;
      Expected(n, arrivals[..|arrivals| - 1])
        + (if Complete(n, arrivals, b) then Stacks(Have(arrivals, b), b, n) else [])
  }

  lemma ProperInit<T>(blocks: nat, n: nat, arrivals: seq<Arrival<T>>)
    requires Proper(blocks, n, arrivals) && arrivals != []
    ensures Proper(blocks, n, arrivals[..|arrivals| - 1])
  {
  }

  lemma {:induction false} HaveMeans<T>(blocks: nat, n: nat, arrivals: seq<Arrival<T>>, b: nat)
    requires Proper(blocks, n, arrivals)
    ensures Have(arrivals, b).Keys <= AllNames(b, n)
    ensures forall name :: name in Have(arrivals, b) <==>
              exists k :: 0 <= k < |arrivals| && arrivals[k].bid == b && arrivals[k].name == name
    ensures forall k :: 0 <= k < |arrivals| && arrivals[k].bid == b ==>
              arrivals[k].name in Have(arrivals, b) && Have(arrivals, b)[arrivals[k].name] == arrivals[k].data
  {
    if arrivals != [] {
      var init, a := arrivals[..|arrivals| - 1], arrivals[|arrivals| - 1];
      ProperInit(blocks, n, arrivals);
      HaveMeans(blocks, n, init, b);
      assert arrivals == init + [a];
    }
  }

  lemma {:induction false} NamesSize(bid: nat, n: nat, wid: Wid)
    ensures |Names(bid, n, wid)| == n
  {
    if n > 0 {
      NamesSize(bid, n - 1, wid);
      assert Names(bid, n, wid) == Names(bid, n - 1, wid) + {Expert(bid, n - 1, wid)};
    } else {
      assert Names(bid, n, wid) == {};
    }
  }

  lemma AllNamesSize(bid: nat, n: nat)
    ensures |AllNames(bid, n)| == n * 3
  {
    var a, b, c := Names(bid, n, W1), Names(bid, n, W2), Names(bid, n, W3);
    NamesSize(bid, n, W1);
    NamesSize(bid, n, W2);
    NamesSize(bid, n, W3);
    Disjoint(a, b);
    Disjoint(a + b, c);
    assert Taken(bid, n, 1) == Taken(bid, n, 0) + a == a;
    assert Taken(bid, n, 2) == a + b && Taken(bid, n, 3) == a + b + c;
  }

  lemma Disjoint<X>(a: set<X>, b: set<X>)
    requires a !! b
    ensures |a + b| == |a| + |b|
  {
  }

  lemma SubsetSize<X>(a: set<X>, b: set<X>)
    requires a <= b
    ensures |a| <= |b| && (|a| == |b| <==> a == b)
  {
    assert b == a + (b - a);
    assert |b| == |a| + |b - a|;
  }

  /** A block's buffer reaches three tensors per expert exactly when every one of them is there. */
  lemma FullIffComplete<T>(blocks: nat, n: nat, arrivals: seq<Arrival<T>>, b: nat)
    requires Proper(blocks, n, arrivals)
    ensures |Have(arrivals, b)| <= n * 3
    ensures |Have(arrivals, b)| == n * 3 <==> Complete(n, arrivals, b)
  {
    HaveMeans(blocks, n, arrivals, b);
    AllNamesSize(b, n);
    SubsetSize(Have(arrivals, b).Keys, AllNames(b, n));
    assert |Have(arrivals, b)| == |Have(arrivals, b).Keys|;
  }

  /** What the buffer of block `b` holds after the arrivals. */
  ghost function Held<T>(n: nat, arrivals: seq<Arrival<T>>, b: nat): Buffer<T> {
    if Complete(n, arrivals, b) then map[] else Have(arrivals, b)
  }

  /** After any proper arrivals, in any order, buffers and output are exactly what has arrived dictates. */
  lemma {:induction false} Conservation<T>(blocks: nat, n: nat, arrivals: seq<Arrival<T>>)
    requires n > 0 && Proper(blocks, n, arrivals)
    ensures var r := Run(blocks, n, arrivals);
      && r.Success?
      && |r.value.buffers| == blocks
      && (forall b :: 0 <= b < blocks ==> r.value.buffers[b] == Held(n, arrivals, b))
      && r.value.emitted == Expected(n, arrivals)
  {
    if arrivals == [] {
      forall b: nat ensures !Complete(n, arrivals, b) {
        AllNamesSize(b, n);
      }
    } else {
      var init, a := arrivals[..|arrivals| - 1], arrivals[|arrivals| - 1];
      ProperInit(blocks, n, arrivals);
      Conservation(blocks, n, init);
      LastArrival(blocks, n, arrivals);
    }
  }

  /** The last tensor is new to its block, so the block was still collecting. */
  lemma {:induction false} LastArrival<T>(blocks: nat, n: nat, arrivals: seq<Arrival<T>>)
    requires n > 0 && Proper(blocks, n, arrivals) && arrivals != []
    ensures var init, a := arrivals[..|arrivals| - 1], arrivals[|arrivals| - 1];
      && !Complete(n, init, a.bid)
      && Arrive(Held(n, init, a.bid), n, a) == Success(Step(Held(n, arrivals, a.bid),
           if Complete(n, arrivals, a.bid) then Stacks(Have(arrivals, a.bid), a.bid, n) else []))
      && forall b: nat :: b != a.bid ==> Held(n, arrivals, b) == Held(n, init, b)
  {
    var init, a := arrivals[..|arrivals| - 1], arrivals[|arrivals| - 1];
    ProperInit(blocks, n, arrivals);
    HaveMeans(blocks, n, init, a.bid);
    assert a.name !in Have(init, a.bid);
    assert a.name in AllNames(a.bid, n);
    FullIffComplete(blocks, n, arrivals, a.bid);
    var filled := Have(arrivals, a.bid);
    assert filled == Have(init, a.bid)[a.name := a.data];
    if Complete(n, arrivals, a.bid) {
      assert filled - AllNames(a.bid, n) == map[];
    }
  }

  // ---------------------------------------------------------------- what that means for the output

  ghost function Of<T>(emitted: seq<Merged<T>>, b: nat, wid: Wid): seq<Merged<T>> {
    if emitted == [] then []
    else
      var last := emitted[|emitted| - 1];
      Of(emitted[..|emitted| - 1], b, wid) + (if last.bid == b && last.wid == wid then [last] else [])
  }

  lemma {:induction false} OfConcat<T>(x: seq<Merged<T>>, y: seq<Merged<T>>, b: nat, wid: Wid)
    ensures Of(x + y, b, wid) == Of(x, b, wid) + Of(y, b, wid)
  {
    if y == [] {
      assert x + y == x;
    } else {
      assert (x + y)[..|x + y| - 1] == x + y[..|y| - 1];
      OfConcat(x, y[..|y| - 1], b, wid);
    }
  }

  /** Of three stacks of one block, the one for the weight asked for. */
  lemma OfStacks<T>(buffer: Buffer<T>, bid: nat, n: nat, b: nat, wid: Wid)
    requires AllNames(bid, n) <= buffer.Keys
    ensures var found := Of(Stacks(buffer, bid, n), b, wid);
      if bid == b then |found| == 1 && IsStack(found[0], buffer, bid, n, wid) else found == []
  {
    ThreeStacks(buffer, bid, n);
    var s1, s2, s3 := Stack(buffer, bid, n, W1), Stack(buffer, bid, n, W2), Stack(buffer, bid, n, W3);
    OfConcat([s1, s2], [s3], b, wid);
    OfConcat([s1], [s2], b, wid);
    assert Stacks(buffer, bid, n) == [s1, s2] + [s3] && [s1, s2] == [s1] + [s2];
    OfOne(s1, b, wid);
    OfOne(s2, b, wid);
    OfOne(s3, b, wid);
    StackMeans(buffer, bid, n, wid);
  }

  lemma OfOne<T>(m: Merged<T>, b: nat, wid: Wid)
    ensures Of([m], b, wid) == if m.bid == b && m.wid == wid then [m] else []
  {
    assert [m][..0] == [];
  }

  lemma StackMeans<T>(buffer: Buffer<T>, bid: nat, n: nat, wid: Wid)
    requires Names(bid, n, wid) <= buffer.Keys
    ensures IsStack(Stack(buffer, bid, n, wid), buffer, bid, n, wid)
  {
    forall x | 0 <= x < n ensures Expert(bid, x, wid) in buffer {
      assert Expert(bid, x, wid) in Names(bid, n, wid);
    }
  }

  lemma ThreeStacks<T>(buffer: Buffer<T>, bid: nat, n: nat)
    requires AllNames(bid, n) <= buffer.Keys
    ensures Names(bid, n, W1) <= buffer.Keys && Names(bid, n, W2) <= buffer.Keys && Names(bid, n, W3) <= buffer.Keys
    ensures Stacks(buffer, bid, n) == [Stack(buffer, bid, n, W1), Stack(buffer, bid, n, W2), Stack(buffer, bid, n, W3)]
  {
    assert Taken(bid, n, 2) <= Taken(bid, n, 3) && Taken(bid, n, 1) <= Taken(bid, n, 2);
    assert StacksUpTo(buffer, bid, n, 1) == [Stack(buffer, bid, n, W1)];
    assert StacksUpTo(buffer, bid, n, 2) == [Stack(buffer, bid, n, W1), Stack(buffer, bid, n, W2)];
  }

  /** The stacked tensor of a weight: slice x is what is buffered under expert x's name. */
  ghost predicate IsStack<T>(m: Merged<T>, buffer: Buffer<T>, bid: nat, n: nat, wid: Wid) {
    && m.bid == bid && m.wid == wid && |m.slices| == n
    && forall x :: 0 <= x < n ==> Expert(bid, x, wid) in buffer && m.slices[x] == buffer[Expert(bid, x, wid)]
  }

  /**
   Each complete block comes out exactly once per weight, slice x holding the tensor that arrived
   under expert x's name; an incomplete block does not come out at all.
   */
  lemma {:induction false} EmittedOnce<T>(blocks: nat, n: nat, arrivals: seq<Arrival<T>>, b: nat, wid: Wid)
    requires n > 0 && Proper(blocks, n, arrivals)
    ensures var found := Of(Expected(n, arrivals), b, wid);
      if Complete(n, arrivals, b)
      then |found| == 1 && IsStack(found[0], Have(arrivals, b), b, n, wid)
      else found == []
  {
    if arrivals == [] {
      AllNamesSize(b, n);
    } else {
      var init, a := arrivals[..|arrivals| - 1], arrivals[|arrivals| - 1];
      ProperInit(blocks, n, arrivals);
      EmittedOnce(blocks, n, init, b, wid);
      LastArrival(blocks, n, arrivals);
      if Complete(n, arrivals, a.bid) {
        OfConcat(Expected(n, init), Stacks(Have(arrivals, a.bid), a.bid, n), b, wid);
        OfStacks(Have(arrivals, a.bid), a.bid, n, b, wid);
      } else {
        assert Expected(n, arrivals) == Expected(n, init);
      }
    }
  }

  /** Which slice holds which tensor does not depend on the order of arrival. */
  lemma SliceIsExpert<T>(blocks: nat, n: nat, arrivals: seq<Arrival<T>>, k: nat)
    requires n > 0 && Proper(blocks, n, arrivals) && k < |arrivals|
    requires Complete(n, arrivals, arrivals[k].bid)
    ensures arrivals[k].name.Expert? && arrivals[k].name.xid < n
    ensures var found := Of(Expected(n, arrivals), arrivals[k].bid, arrivals[k].name.wid);
      && |found| == 1 && |found[0].slices| == n
      && found[0].slices[arrivals[k].name.xid] == arrivals[k].data
  {
    HaveMeans(blocks, n, arrivals, arrivals[k].bid);
    NamesIn(arrivals[k].bid, n, 3);
    EmittedOnce(blocks, n, arrivals, arrivals[k].bid, arrivals[k].name.wid);
  }

  /**
   The final check accepts exactly the conversions in which every block got all of its tensors or
   none.  A block that is missing altogether goes unnoticed; a block that is missing some does not.
   */
  lemma FinishAcceptsIff<T>(blocks: nat, n: nat, arrivals: seq<Arrival<T>>)
    requires n > 0 && Proper(blocks, n, arrivals)
    ensures var r := Run(blocks, n, arrivals);
      r.Success? &&
      (Leftovers(r.value.buffers) == {} <==>
        forall b :: 0 <= b < blocks ==> Have(arrivals, b) == map[] || Complete(n, arrivals, b))
  {
    Conservation(blocks, n, arrivals);
    var buffers := Run(blocks, n, arrivals).value.buffers;
    if Leftovers(buffers) == {} {
      forall b | 0 <= b < blocks ensures Have(arrivals, b) == map[] || Complete(n, arrivals, b) {
        assert forall name :: name in buffers[b] ==> name in Leftovers(buffers);
        assert buffers[b] == Held(n, arrivals, b);
      }
    } else {
      var name :| name in Leftovers(buffers);
      var b :| 0 <= b < |buffers| && name in buffers[b];
      assert buffers[b] == Held(n, arrivals, b);
    }
  }

  // ---------------------------------------------------------------- when the conversion fails

  /** Tensors of one block, none of them twice. */
  ghost predicate OneBlock<T>(arrivals: seq<Arrival<T>>, b: nat) {
    && (forall k :: 0 <= k < |arrivals| ==> arrivals[k].bid == b)
    && (forall k, l :: 0 <= k < l < |arrivals| ==> arrivals[k].name != arrivals[l].name)
  }

  lemma {:induction false} HaveAll<T>(arrivals: seq<Arrival<T>>, b: nat)
    requires OneBlock(arrivals, b)
    ensures |Have(arrivals, b)| == |arrivals|
    ensures forall name :: name in Have(arrivals, b) <==> exists k :: 0 <= k < |arrivals| && arrivals[k].name == name
  {
    if arrivals != [] {
      var init, a := arrivals[..|arrivals| - 1], arrivals[|arrivals| - 1];
      HaveAll(init, b);
      assert arrivals == init + [a];
      assert forall k :: 0 <= k < |init| ==> init[k] == arrivals[k];
      assert a.name !in Have(init, b);
      assert Have(arrivals, b) == Have(init, b)[a.name := a.data];
      assert arrivals[|init|].name == a.name;
    }
  }

  lemma RunStep<T>(blocks: nat, n: nat, init: seq<Arrival<T>>, a: Arrival<T>, buffers: seq<Buffer<T>>, step: Step<T>)
    requires Run(blocks, n, init) == Success(Trace(buffers, [])) && a.bid < |buffers|
    requires Arrive(buffers[a.bid], n, a) == Success(step) && step.emitted == []
    ensures Run(blocks, n, init + [a]) == Success(Trace(buffers[a.bid := step.buffer], []))
  {
    var none: seq<Merged<T>> := [];
    assert (init + [a])[..|init|] == init && none + step.emitted == none;
  }

  /** Below three tensors per expert a block only collects, whatever the tensors are called. */
  lemma {:induction false} Collects<T>(blocks: nat, n: nat, arrivals: seq<Arrival<T>>, b: nat)
    requires OneBlock(arrivals, b) && b < blocks && |arrivals| < n * 3
    ensures Run(blocks, n, arrivals) == Success(Trace(Empty(blocks)[b := Have(arrivals, b)], []))
  {
    if arrivals == [] {
      assert Have(arrivals, b) == map[];
      assert Empty<T>(blocks)[b := map[]] == Empty<T>(blocks);
      assert Run(blocks, n, arrivals) == Success(Trace(Empty(blocks), []));
    } else {
      var init, a := arrivals[..|arrivals| - 1], arrivals[|arrivals| - 1];
      Collects(blocks, n, init, b);
      OneMoreCollected(n, arrivals, init, a, b);
      var buffers := Empty(blocks)[b := Have(init, b)];
      RunStep(blocks, n, init, a, buffers, Step(Have(arrivals, b), []));
      assert init + [a] == arrivals && buffers[b := Have(arrivals, b)] == Empty(blocks)[b := Have(arrivals, b)];
    }
  }

  lemma OneMoreCollected<T>(n: nat, arrivals: seq<Arrival<T>>, init: seq<Arrival<T>>, a: Arrival<T>, b: nat)
    requires OneBlock(arrivals, b) && arrivals == init + [a] && |arrivals| < n * 3
    ensures Arrive(Have(init, b), n, a) == Success(Step(Have(arrivals, b), []))
  {
    HaveAll(arrivals, b);
    assert arrivals[..|init|] == init;
  }

  /** When the tensor that makes up the number finds a stray one among the others, an expert's is missing. */
  lemma StrayRaises<T>(blocks: nat, n: nat, arrivals: seq<Arrival<T>>, b: nat, stray: nat)
    requires OneBlock(arrivals, b) && b < blocks && n > 0 && |arrivals| == n * 3 && stray < |arrivals|
    requires match arrivals[stray].name
             case Expert(bid, xid, _) => bid != b || xid >= n
             case Other(_) => true
    ensures Run(blocks, n, arrivals) == Failure(KeyError)
  {
    var init, a := arrivals[..|arrivals| - 1], arrivals[|arrivals| - 1];
    Collects(blocks, n, init, b);
    HaveAll(arrivals, b);
    var filled := Have(arrivals, b);
    assert filled == Have(init, b)[a.name := a.data];
    NamesIn(b, n, 3);
    AllNamesSize(b, n);
    assert |filled| == |filled.Keys|;
    NotSubset(AllNames(b, n), filled.Keys, arrivals[stray].name);
  }

  lemma NotSubset<X>(a: set<X>, b: set<X>, x: X)
    requires |a| == |b| && x in b && x !in a
    ensures !(a <= b)
  {
    if a <= b {
      SubsetSize(a, b);
    }
  }

  /** A model without experts cannot stack any, and a block that does not exist has no buffer. */
  lemma NothingToStack<T>(blocks: nat, a: Arrival<T>, n: nat)
    ensures Run(blocks, n, [a]) ==
      if a.bid >= blocks then Failure(IndexError)
      else if n == 0 then Failure(EmptyStack)
      else Success(Trace(Empty(blocks)[a.bid := map[a.name := a.data]], []))
  {
    var none: seq<Arrival<T>> := [];
    assert [a][..0] == none;
    assert Run(blocks, n, none) == Success(Trace(Empty(blocks), []));
    if a.bid < blocks && n > 0 {
      assert Empty<T>(blocks)[a.bid][a.name := a.data] == map[a.name := a.data];
      RunStep(blocks, n, none, a, Empty(blocks), Step(map[a.name := a.data], []));
      assert none + [a] == [a];
    }
  }
}
