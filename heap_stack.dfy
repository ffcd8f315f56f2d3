/**
  * The state of the projects section (components/ProjectsHeapStack.tsx,
  * lines 63-113): a max-heap of repositories, a LIFO stack of popped ones
  * (index 0 is the top) and the signature of the last batch pushed. The
  * React state setters and the ref become fields that the operations
  * reassign; each operation runs its updaters in order.
  */
module ProjectsHeapStack {
  import opened Wrappers
  import opened RepoPriority
  import opened Heap
  import opened Text

  /** `compare` obeys the laws the heap operations rely on. */
  lemma CompareIsPreorder()
    ensures Preorder(Compare)
  {
    forall x ensures AtLeast(Compare, x, x) {
      CompareReflexive(x);
    }
    forall x, y | Compare(x, y) <= 0 ensures AtLeast(Compare, y, x) {
      CompareAntisymmetric(y, x);
    }
    forall x, y, z | Chained(Compare, x, y, z) ensures AtLeast(Compare, x, z) {
      CompareTransitive(x, y, z);
    }
  }

  /** `[...s].reverse()`. */
  function Reverse<T>(s: seq<T>): (r: seq<T>)
    ensures |r| == |s|
    ensures forall i :: 0 <= i < |s| ==> r[i] == s[|s| - 1 - i]
    ensures multiset(r) == multiset(s)
  {
    if s == [] then []
    else
      assert s == [s[0]] + s[1..];
      Reverse(s[1..]) + [s[0]]
  }

  /**
    * A batch pushed onto the stack in reverse comes out smallest first: the
    * later a repository sits in the pushed block, the larger it is.
    */
  lemma ReversedBatchAscends(popped: seq<Repo>)
    requires NonIncreasing(Compare, popped)
    ensures forall x, y :: 0 <= x < y < |popped| ==> AtLeast(Compare, Reverse(popped)[y], Reverse(popped)[x])
  {
    var r := Reverse(popped);
    forall x, y | 0 <= x < y < |popped| ensures AtLeast(Compare, r[y], r[x]) {
      assert r[y] == popped[|popped| - 1 - y] && r[x] == popped[|popped| - 1 - x];
    }
  }

  function Urls(rs: seq<Repo>): (us: seq<string>)
    ensures |us| == |rs| && forall i :: 0 <= i < |rs| ==> us[i] == rs[i].url
  {
    if rs == [] then [] else [rs[0].url] + Urls(rs[1..])
  }

  /** The batch signature: the popped URLs joined by `|`, then `::` and the size of what remains. */
  function Signature(popped: seq<Repo>, remaining: nat): string {
    Join(Urls(popped), "|") + "::" + Decimal(remaining)
  }

  /** `heap.some(r => r.html_url === url)`. */
  function HasUrl(heap: seq<Repo>, url: string): (b: bool)
    ensures b <==> exists i :: 0 <= i < |heap| && heap[i].url == url
  {
    if heap == [] then false
    else if heap[0].url == url then true
    else
      var found := HasUrl(heap[1..], url);
      assert found ==> exists i :: 0 <= i < |heap| && heap[i].url == url by {
        if found {
          var i :| 0 <= i < |heap| - 1 && heap[1..][i].url == url;
          assert heap[i + 1].url == url;
        }
      }
      found
  }

  class HeapStackBrowser {
    var heap: seq<Repo>
    var stack: seq<Repo>
    var lastBatch: string

    ghost predicate Valid()
      reads this
    {
      IsHeap(Compare, heap)
    }

    /** The first render: the heap built from `repos`, an empty stack, no batch yet. */
    constructor(repos: seq<Repo>)
      ensures Valid()
      ensures multiset(heap) == multiset(repos)
      ensures stack == [] && lastBatch == ""
    {
      CompareIsPreorder();
      var built := BuildHeap(Compare, repos);
      heap := built;
      stack := [];
      lastBatch := "";
    }

    /** The effect on a new `repos`: the heap is rebuilt, the stack and the last signature are kept. */
    method Reload(repos: seq<Repo>)
      modifies this
      ensures Valid()
      ensures multiset(heap) == multiset(repos)
      ensures stack == old(stack) && lastBatch == old(lastBatch)
    {
      CompareIsPreorder();
      heap := BuildHeap(Compare, repos);
    }

    /**
      * `popMany(count)`: pops `BatchSize(count, |heap|)` roots in
      * non-increasing order, each at least as large as all that remains; the
      * batch goes onto the stack in reverse (its last element on top) unless
      * its signature equals the last one recorded, in which case the stack
      * is left alone and the popped repositories are dropped.
      */
    method PopMany(count: Option<int>) returns (popped: seq<Repo>)
      requires Valid()
      modifies this
      ensures Valid()
      ensures |popped| == BatchSize(count, |old(heap)|)
      ensures multiset(popped) + multiset(heap) == multiset(old(heap))
      ensures NonIncreasing(Compare, popped) && Dominates(Compare, popped, heap)
      ensures popped != [] ==> popped[0] == old(heap)[0]
      ensures popped != [] && Signature(popped, |heap|) != old(lastBatch) ==>
        stack == Reverse(popped) + old(stack) && lastBatch == Signature(popped, |heap|)
      ensures popped == [] || Signature(popped, |heap|) == old(lastBatch) ==>
        stack == old(stack) && lastBatch == old(lastBatch)
    {
      CompareIsPreorder();
      var rest;
      popped, rest := PopBatch(Compare, heap, count);
      if popped != [] {
        var signature := Signature(popped, |rest|);
        if signature != lastBatch {
          lastBatch := signature;
          stack := Reverse(popped) + stack;
        }
      }
      heap := rest;
    }

    /**
      * `popMany` with the batch always pushed: between them heap and stack
      * keep every repository they held.
      */
    method PopManyPushAlways(count: Option<int>) returns (popped: seq<Repo>)
      requires Valid()
      modifies this
      ensures Valid()
      ensures |popped| == BatchSize(count, |old(heap)|)
      ensures multiset(popped) + multiset(heap) == multiset(old(heap))
      ensures NonIncreasing(Compare, popped) && Dominates(Compare, popped, heap)
      ensures stack == Reverse(popped) + old(stack)
      ensures multiset(heap) + multiset(stack) == multiset(old(heap)) + multiset(old(stack))
    {
      CompareIsPreorder();
      var rest;
      popped, rest := PopBatch(Compare, heap, count);
      PushKeepsAll(heap, stack, popped, rest);
      if popped != [] {
        lastBatch := Signature(popped, |rest|);
        stack := Reverse(popped) + stack;
      }
      heap := rest;
    }

    /**
      * `opStackPop`: on an empty stack nothing happens. Otherwise the top
      * leaves the stack; it is sifted up into the heap unless the heap
      * already holds a repository with its URL, in which case it is dropped.
      */
    method StackPop()
      requires Valid()
      modifies this
      ensures Valid()
      ensures lastBatch == old(lastBatch)
      ensures old(stack) == [] ==> heap == old(heap) && stack == []
      ensures old(stack) != [] ==> stack == old(stack)[1..]
      ensures old(stack) != [] && HasUrl(old(heap), old(stack)[0].url) ==> heap == old(heap)
      ensures old(stack) != [] && !HasUrl(old(heap), old(stack)[0].url) ==>
        multiset(heap) == multiset(old(heap)) + multiset{old(stack)[0]}
      ensures old(stack) != [] && !HasUrl(old(heap), old(stack)[0].url) ==>
        multiset(heap) + multiset(stack) == multiset(old(heap)) + multiset(old(stack))
    {
      if stack == [] {
        return;
      }
      var top := stack[0];
      assert stack == [top] + stack[1..];
      stack := stack[1..];
      if HasUrl(heap, top.url) {
        return;
      }
      CompareIsPreorder();
      var prev := heap;
      var n := |prev|;
      var a := new Repo[n + 1](k requires 0 <= k <= n => if k < n then prev[k] else top);
      assert a[..] == heap + [top];
      forall k | 0 < k < a.Length && k != n ensures EdgeOk(Compare, a[..], k) {
        assert EdgeOk(Compare, heap, k);
      }
      HeapifyUp(Compare, a, n);
      heap := a[..];
    }
  }

  /** Pushing the whole batch keeps, between heap and stack, every repository held before. */
  lemma PushKeepsAll(heap: seq<Repo>, stack: seq<Repo>, popped: seq<Repo>, rest: seq<Repo>)
    requires multiset(popped) + multiset(rest) == multiset(heap)
    ensures popped == [] ==> Reverse(popped) + stack == stack
    ensures multiset(rest) + multiset(Reverse(popped) + stack) == multiset(heap) + multiset(stack)
  {
    if popped == [] {
      assert Reverse(popped) + stack == stack;
    }
  }

  /** A sequence holding exactly one `r` is `[r]`. */
  lemma OnlyElement(s: seq<Repo>, r: Repo)
    requires multiset(s) == multiset{r}
    ensures s == [r]
  {
    assert |s| == |multiset(s)| == 1;
    assert s[0] in multiset(s);
  }

  /**
    * Pop one repository, put it back from the stack, pop it again: the
    * second batch has the same signature as the first (same URL, nothing
    * left in the heap), so it is not pushed, and the repository ends up in
    * neither the heap nor the stack.
    */
  method LostOnRepeatPop(r: Repo) returns (b: HeapStackBrowser)
    ensures b.heap == [] && b.stack == []
  {
    b := new HeapStackBrowser([r]);
    OnlyElement(b.heap, r);
    var first := b.PopMany(Some(1));
    OnlyElement(first, r);
    assert b.stack == [r];
    b.StackPop();
    OnlyElement(b.heap, r);
    var second := b.PopMany(Some(1));
    OnlyElement(second, r);
  }

  /** The same three steps with the batch always pushed leave the repository on the stack. */
  method KeptOnRepeatPop(r: Repo) returns (b: HeapStackBrowser)
    ensures b.heap == [] && b.stack == [r]
  {
    b := new HeapStackBrowser([r]);
    OnlyElement(b.heap, r);
    var first := b.PopManyPushAlways(Some(1));
    OnlyElement(first, r);
    assert b.stack == [r];
    b.StackPop();
    OnlyElement(b.heap, r);
    var second := b.PopManyPushAlways(Some(1));
    OnlyElement(second, r);
  }
}
