/**
 * `Cache` of cache-emu/memory.py: the five per-slot lists live in arrays, and
 * `access` reads and writes them through `ListView` windows over one set.
 * Every method is proved to do what `CacheModel` says of the same state.
 */
module Memory {
  import opened Wrappers
  import opened PyInt
  import opened ListViews
  import opened Text
  import opened CacheModel

  /** `a` and `b` agree everywhere except possibly on `[start, end)`. */
  predicate SameOutside<X(==)>(a: seq<X>, b: seq<X>, start: int, end: int)
  {
    |a| == |b| && 0 <= start <= end <= |a| && forall i :: 0 <= i < |a| && (i < start || end <= i) ==> a[i] == b[i]
  }

  /** A window from `start` to `start + n` shows that slice of its list. */
  lemma ShowsSlice<X>(w: ListView<X>, start: nat, n: nat)
    requires w.Valid() && w.start == start && w.end == start + n
    ensures w.Elements() == w.lst[..][start..start + n]
  {
  }

  /** A list that agrees with `before` outside a window, and shows `view` in it, is `before` with `view` spliced in. */
  lemma Reassemble<X>(w: ListView<X>, before: seq<X>, view: seq<X>)
    requires w.Valid() && w.start <= w.end && w.Elements() == view
    requires SameOutside(w.lst[..], before, w.start, w.end)
    ensures w.lst[..] == SpliceSeq(before, w.start, view)
  {
    var r := SpliceSeq(before, w.start, view);
    forall j | 0 <= j < w.lst.Length
      ensures w.lst[j] == r[j]
    {
      if w.start <= j < w.end {
        assert w.lst[j] == w.Elements()[j - w.start];
      } else {
        assert w.lst[..][j] == before[j];
      }
    }
  }

  /** `w[i] = x`: one element of the window changes, nothing outside it. */
  method Write<X>(w: ListView<X>, i: nat, x: X)
    requires w.Valid() && i < w.Len()
    modifies w.lst
    ensures w.Elements() == old(w.Elements())[i := x]
    ensures SameOutside(w.lst[..], old(w.lst[..]), w.start, w.end)
  {
    var done := w.Set(i, x);
  }

  /** `w[i] += 1` on a window of numbers. */
  method Bump(w: ListView<int>, i: nat)
    requires w.Valid() && i < w.Len()
    modifies w.lst
    ensures w.Elements() == old(w.Elements())[i := old(w.Elements())[i] + 1]
    ensures SameOutside(w.lst[..], old(w.lst[..]), w.start, w.end)
  {
    var x := w.Get(i).value;
    var done := w.Set(i, x + 1);
  }

  /** `min(range(len(w)), key=w.__getitem__)`: the first way with the least value. */
  method FirstMin(w: ListView<int>) returns (k: nat)
    requires w.Valid() && w.Len() >= 1
    ensures k == ArgMin(w.Elements())
  {
    ghost var s := w.Elements();
    var n := w.Len();
    k := 0;
    var i := 1;
    assert s[..1] == [s[0]];
    while i < n
      invariant 1 <= i <= n && k < i
      invariant k == ArgMin(s[..i])
    {
      assert s[..i + 1][..i] == s[..i];
      var x := w.Get(i).value;
      var y := w.Get(k).value;
      if x < y {
        k := i;
      }
      i := i + 1;
    }
    assert s[..n] == s;
  }

  /** `max(range(len(w)), key=w.__getitem__)`: the first way with the greatest value. */
  method FirstMax(w: ListView<int>) returns (k: nat)
    requires w.Valid() && w.Len() >= 1
    ensures k == ArgMax(w.Elements())
  {
    ghost var s := w.Elements();
    var n := w.Len();
    k := 0;
    var i := 1;
    assert s[..1] == [s[0]];
    while i < n
      invariant 1 <= i <= n && k < i
      invariant k == ArgMax(s[..i])
    {
      assert s[..i + 1][..i] == s[..i];
      var x := w.Get(i).value;
      var y := w.Get(k).value;
      if x > y {
        k := i;
      }
      i := i + 1;
    }
    assert s[..n] == s;
  }

  /** The aging loop of `access`: `lasttime` and `firsttime` of every way of the set rise by one. */
  method Age(wlast: ListView<int>, wfirst: ListView<int>, n: nat)
    requires wlast.Valid() && wfirst.Valid() && wlast.lst != wfirst.lst
    requires wlast.Len() == n && wfirst.Len() == n
    modifies wlast.lst, wfirst.lst
    ensures wlast.Elements() == Incremented(old(wlast.Elements()))
    ensures wfirst.Elements() == Incremented(old(wfirst.Elements()))
    ensures SameOutside(wlast.lst[..], old(wlast.lst[..]), wlast.start, wlast.end)
    ensures SameOutside(wfirst.lst[..], old(wfirst.lst[..]), wfirst.start, wfirst.end)
  {
    ghost var last0, first0 := wlast.Elements(), wfirst.Elements();
    var i := 0;
    while i < n
      invariant 0 <= i <= n
      invariant |wlast.Elements()| == n && |wfirst.Elements()| == n
      invariant forall k :: 0 <= k < i ==> wlast.Elements()[k] == last0[k] + 1
      invariant forall k :: i <= k < n ==> wlast.Elements()[k] == last0[k]
      invariant forall k :: 0 <= k < i ==> wfirst.Elements()[k] == first0[k] + 1
      invariant forall k :: i <= k < n ==> wfirst.Elements()[k] == first0[k]
      invariant SameOutside(wlast.lst[..], old(wlast.lst[..]), wlast.start, wlast.end)
      invariant SameOutside(wfirst.lst[..], old(wfirst.lst[..]), wfirst.start, wfirst.end)
    {
      AgeWay(wlast, wfirst, i);
      i := i + 1;
    }
    assert wlast.Elements() == Incremented(last0);
    assert wfirst.Elements() == Incremented(first0);
  }

  /** One round of the aging loop: way `i` is one access older on both counters. */
  method AgeWay(wlast: ListView<int>, wfirst: ListView<int>, i: nat)
    requires wlast.Valid() && wfirst.Valid() && wlast.lst != wfirst.lst
    requires i < wlast.Len() && i < wfirst.Len()
    modifies wlast.lst, wfirst.lst
    ensures wlast.Elements() == old(wlast.Elements())[i := old(wlast.Elements())[i] + 1]
    ensures wfirst.Elements() == old(wfirst.Elements())[i := old(wfirst.Elements())[i] + 1]
    ensures SameOutside(wlast.lst[..], old(wlast.lst[..]), wlast.start, wlast.end)
    ensures SameOutside(wfirst.lst[..], old(wfirst.lst[..]), wfirst.start, wfirst.end)
  {
    Bump(wlast, i);
    Bump(wfirst, i);
  }

  /** `t in wtags and wvalid[wtags.index(t)]`: the set holds `t` in the first way that has it, and that way is valid. */
  method Probe(wtags: ListView<int>, wvalid: ListView<bool>, t: int) returns (hit: bool)
    requires wtags.Valid() && wvalid.Valid() && wtags.Len() == wvalid.Len()
    ensures hit <==> Find(wtags.Elements(), t).Some? && wvalid.Elements()[Find(wtags.Elements(), t).value]
  {
    var held := wtags.Contains(t);
    FindSpec(wtags.Elements(), t);
    if !held {
      return false;
    }
    var i := wtags.Index(t);
    hit := wvalid.Get(i.value).value;
  }

  /** The five lists `reset` installs: `[False] * n` and four times `[0] * n`. */
  method FreshLists(n: nat) returns (v: array<bool>, t: array<int>, u: array<int>, l: array<int>, f: array<int>)
    ensures fresh(v) && fresh(t) && fresh(u) && fresh(l) && fresh(f)
    ensures t != u && t != l && t != f && u != l && u != f && l != f
    ensures v[..] == Constant(n, false) && t[..] == Constant(n, 0) && u[..] == Constant(n, 0)
    ensures l[..] == Constant(n, 0) && f[..] == Constant(n, 0)
  {
    v := new bool[n](_ => false);
    t := new int[n](_ => 0);
    u := new int[n](_ => 0);
    l := new int[n](_ => 0);
    f := new int[n](_ => 0);
    assert v[..] == Constant(n, false);
    assert t[..] == Constant(n, 0) && u[..] == Constant(n, 0) && l[..] == Constant(n, 0) && f[..] == Constant(n, 0);
  }

  /** The writes of a miss: the way gets the tag, becomes valid, is used once and is new. */
  method Install(wtags: ListView<int>, wvalid: ListView<bool>, wusecount: ListView<int>, wlasttime: ListView<int>,
                 wfirsttime: ListView<int>, way: nat, t: int)
    requires wtags.Valid() && wvalid.Valid() && wusecount.Valid() && wlasttime.Valid() && wfirsttime.Valid()
    requires way < wtags.Len() && way < wvalid.Len() && way < wusecount.Len() && way < wlasttime.Len() && way < wfirsttime.Len()
    requires Apart(wtags.lst, wusecount.lst, wlasttime.lst, wfirsttime.lst)
    modifies wtags.lst, wvalid.lst, wusecount.lst, wlasttime.lst, wfirsttime.lst
    ensures wtags.Elements() == old(wtags.Elements())[way := t]
    ensures wvalid.Elements() == old(wvalid.Elements())[way := true]
    ensures wusecount.Elements() == old(wusecount.Elements())[way := 1]
    ensures wlasttime.Elements() == old(wlasttime.Elements())[way := 0]
    ensures wfirsttime.Elements() == old(wfirsttime.Elements())[way := 0]
    ensures SameOutside(wtags.lst[..], old(wtags.lst[..]), wtags.start, wtags.end)
    ensures SameOutside(wvalid.lst[..], old(wvalid.lst[..]), wvalid.start, wvalid.end)
    ensures SameOutside(wusecount.lst[..], old(wusecount.lst[..]), wusecount.start, wusecount.end)
    ensures SameOutside(wlasttime.lst[..], old(wlasttime.lst[..]), wlasttime.start, wlasttime.end)
    ensures SameOutside(wfirsttime.lst[..], old(wfirsttime.lst[..]), wfirsttime.start, wfirsttime.end)
  {
    Write(wtags, way, t);
    Write(wvalid, way, true);
    Write(wusecount, way, 1);
    Write(wlasttime, way, 0);
    Write(wfirsttime, way, 0);
  }

  /** The four integer lists are four different arrays, so writing one leaves the others alone. */
  predicate Apart(tags: array<int>, usecount: array<int>, lasttime: array<int>, firsttime: array<int>)
  {
    tags != usecount && tags != lasttime && tags != firsttime
    && usecount != lasttime && usecount != firsttime && lasttime != firsttime
  }

  /** The five per-slot lists read as one `Slots` value. */
  function SlotsOf(valid: array<bool>, tags: array<int>, usecount: array<int>, lasttime: array<int>,
                   firsttime: array<int>): (v: Slots)
    reads valid, tags, usecount, lasttime, firsttime
    requires tags.Length == valid.Length && usecount.Length == valid.Length
    requires lasttime.Length == valid.Length && firsttime.Length == valid.Length
    ensures Shaped(v, valid.Length)
  {
    Slots(valid[..], tags[..], usecount[..], lasttime[..], firsttime[..])
  }

  /**
   * The body of `access` on the set whose first slot is `start`: five
   * windows over it, then the aging, the hit or the replacement. Returns
   * whether it hit and the slot `last_access` reports.
   */
  method AccessWindow(cfg: Config, valid: array<bool>, tags: array<int>, usecount: array<int>, lasttime: array<int>,
                      firsttime: array<int>, start: nat, t: int) returns (hit: bool, slot: int)
    requires WaysOk(cfg) && Apart(tags, usecount, lasttime, firsttime)
    requires valid.Length == cfg.partitions && tags.Length == cfg.partitions && usecount.Length == cfg.partitions
    requires lasttime.Length == cfg.partitions && firsttime.Length == cfg.partitions
    requires start + cfg.ways <= cfg.partitions
    modifies valid, tags, usecount, lasttime, firsttime
    ensures var o := SetAccess(cfg, Window(old(SlotsOf(valid, tags, usecount, lasttime, firsttime)), start, cfg.ways), t);
      SlotsOf(valid, tags, usecount, lasttime, firsttime)
        == Splice(old(SlotsOf(valid, tags, usecount, lasttime, firsttime)), start, o.view)
      && hit == o.hit && slot == if o.hit then start + t else start + o.way
  {
    ghost var s0 := SlotsOf(valid, tags, usecount, lasttime, firsttime);
    var wvalid, wtags, wusecount, wlasttime, wfirsttime := OpenWindows(valid, tags, usecount, lasttime, firsttime, start, cfg.ways);
    hit, slot := UpdateSet(cfg, wtags, wvalid, wusecount, wlasttime, wfirsttime, t, Window(s0, start, cfg.ways));
    CloseWindows(wvalid, wtags, wusecount, wlasttime, wfirsttime, s0, SetAccess(cfg, Window(s0, start, cfg.ways), t).view);
  }

  /** `ListView(lst, start, start + n)` for each of the five lists. */
  method OpenWindows(valid: array<bool>, tags: array<int>, usecount: array<int>, lasttime: array<int>,
                     firsttime: array<int>, start: nat, n: nat)
    returns (wvalid: ListView<bool>, wtags: ListView<int>, wusecount: ListView<int>, wlasttime: ListView<int>,
             wfirsttime: ListView<int>)
    requires tags.Length == valid.Length && usecount.Length == valid.Length
    requires lasttime.Length == valid.Length && firsttime.Length == valid.Length
    requires start + n <= valid.Length
    ensures wtags.Valid() && wvalid.Valid() && wusecount.Valid() && wlasttime.Valid() && wfirsttime.Valid()
    ensures wvalid.lst == valid && wtags.lst == tags && wusecount.lst == usecount
    ensures wlasttime.lst == lasttime && wfirsttime.lst == firsttime
    ensures wvalid.start == start && wtags.start == start && wusecount.start == start
    ensures wlasttime.start == start && wfirsttime.start == start
    ensures wvalid.end == start + n && wtags.end == start + n && wusecount.end == start + n
    ensures wlasttime.end == start + n && wfirsttime.end == start + n
    ensures Shown(wvalid, wtags, wusecount, wlasttime, wfirsttime) == Window(SlotsOf(valid, tags, usecount, lasttime, firsttime), start, n)
  {
    wvalid := Open(valid, start, n);
    wtags := Open(tags, start, n);
    wusecount := Open(usecount, start, n);
    wlasttime := Open(lasttime, start, n);
    wfirsttime := Open(firsttime, start, n);
  }

  /** `ListView(lst, start, start + n)`, which shows that slice of `lst`. */
  method Open<X>(lst: array<X>, start: nat, n: nat) returns (w: ListView<X>)
    requires start + n <= lst.Length
    ensures w.Valid() && w.lst == lst && w.start == start && w.end == start + n
    ensures w.Elements() == lst[..][start..start + n]
  {
    w := new ListView(lst, Some(start), Some(start + n));
    ShowsSlice(w, start, n);
  }

  /** Five lists that changed only inside their windows, which show `view`, are `before` with `view` spliced in. */
  lemma CloseWindows(wvalid: ListView<bool>, wtags: ListView<int>, wusecount: ListView<int>, wlasttime: ListView<int>,
                     wfirsttime: ListView<int>, before: Slots, view: Slots)
    requires wtags.Valid() && wvalid.Valid() && wusecount.Valid() && wlasttime.Valid() && wfirsttime.Valid()
    requires wtags.start <= wtags.end && wvalid.start == wtags.start && wusecount.start == wtags.start
    requires wlasttime.start == wtags.start && wfirsttime.start == wtags.start
    requires wvalid.end == wtags.end && wusecount.end == wtags.end && wlasttime.end == wtags.end && wfirsttime.end == wtags.end
    requires Shown(wvalid, wtags, wusecount, wlasttime, wfirsttime) == view
    requires Shaped(before, wvalid.lst.Length)
    requires SameOutside(wvalid.lst[..], before.valid, wvalid.start, wvalid.end)
    requires SameOutside(wtags.lst[..], before.tags, wtags.start, wtags.end)
    requires SameOutside(wusecount.lst[..], before.usecount, wusecount.start, wusecount.end)
    requires SameOutside(wlasttime.lst[..], before.lasttime, wlasttime.start, wlasttime.end)
    requires SameOutside(wfirsttime.lst[..], before.firsttime, wfirsttime.start, wfirsttime.end)
    ensures Shaped(view, |view.valid|) && wtags.start + |view.valid| <= |before.valid|
    ensures SlotsOf(wvalid.lst, wtags.lst, wusecount.lst, wlasttime.lst, wfirsttime.lst) == Splice(before, wtags.start, view)
  {
    Reassemble(wvalid, before.valid, view.valid);
    Reassemble(wtags, before.tags, view.tags);
    Reassemble(wusecount, before.usecount, view.usecount);
    Reassemble(wlasttime, before.lasttime, view.lasttime);
    Reassemble(wfirsttime, before.firsttime, view.firsttime);
  }


  /**
   * The array half of `access`: locate the set, update its window, and report
   * whether it hit and which slot `last_access` names, as `Step` says.
   */
  method AccessArrays(cfg: Config, valid: array<bool>, tags: array<int>, usecount: array<int>, lasttime: array<int>,
                      firsttime: array<int>, ghost st: CacheState, ref: int) returns (hit: bool, slot: int)
    requires ConfigOk(cfg) && Apart(tags, usecount, lasttime, firsttime)
    requires valid.Length == cfg.partitions && tags.Length == cfg.partitions && usecount.Length == cfg.partitions
    requires lasttime.Length == cfg.partitions && firsttime.Length == cfg.partitions
    requires cfg.partitionSize != 0 && cfg.sets != 0
    requires StateShaped(cfg, st) && st.slots == SlotsOf(valid, tags, usecount, lasttime, firsttime)
    modifies valid, tags, usecount, lasttime, firsttime
    ensures Step(cfg, st, ref) == Ok(CacheState(SlotsOf(valid, tags, usecount, lasttime, firsttime),
                                                if hit then st.hits + 1 else st.hits,
                                                if hit then st.misses else st.misses + 1,
                                                Accessed(hit, slot)))
  {
    var a := Locate(cfg, ref);
    var start := SetStart(cfg, a.index);
    ghost var o := SetAccess(cfg, Window(st.slots, start, cfg.ways), a.tag);
    StepUnfold(cfg, st, ref, a, start, o);
    hit, slot := AccessWindow(cfg, valid, tags, usecount, lasttime, firsttime, start, a.tag);
    assert SlotsOf(valid, tags, usecount, lasttime, firsttime) == Splice(st.slots, start, o.view);
    assert hit == o.hit && slot == if o.hit then start + a.tag else start + o.way;
    AdvanceIs(cfg, st, start, a.tag, o, SlotsOf(valid, tags, usecount, lasttime, firsttime), hit, slot);
  }

  /** What five windows over the same set show, as one `Slots` value. */
  ghost function Shown(wvalid: ListView<bool>, wtags: ListView<int>, wusecount: ListView<int>, wlasttime: ListView<int>,
                       wfirsttime: ListView<int>): Slots
    reads wvalid, wvalid.lst, wtags, wtags.lst, wusecount, wusecount.lst, wlasttime, wlasttime.lst, wfirsttime, wfirsttime.lst
    requires wtags.Valid() && wvalid.Valid() && wusecount.Valid() && wlasttime.Valid() && wfirsttime.Valid()
  {
    Slots(wvalid.Elements(), wtags.Elements(), wusecount.Elements(), wlasttime.Elements(), wfirsttime.Elements())
  }

  /** What `access` does through the five windows of one set, whose contents are `v`. */
  method UpdateSet(cfg: Config, wtags: ListView<int>, wvalid: ListView<bool>, wusecount: ListView<int>,
                   wlasttime: ListView<int>, wfirsttime: ListView<int>, t: int, ghost v: Slots) returns (hit: bool, slot: int)
    requires WaysOk(cfg) && Shaped(v, cfg.ways)
    requires wtags.Valid() && wvalid.Valid() && wusecount.Valid() && wlasttime.Valid() && wfirsttime.Valid()
    requires Shown(wvalid, wtags, wusecount, wlasttime, wfirsttime) == v
    requires Apart(wtags.lst, wusecount.lst, wlasttime.lst, wfirsttime.lst)
    modifies wtags.lst, wvalid.lst, wusecount.lst, wlasttime.lst, wfirsttime.lst
    ensures var o := SetAccess(cfg, v, t);
      Shown(wvalid, wtags, wusecount, wlasttime, wfirsttime) == o.view
      && hit == o.hit && slot == if o.hit then wtags.start + t else wtags.start + o.way
    ensures SameOutside(wtags.lst[..], old(wtags.lst[..]), wtags.start, wtags.end)
    ensures SameOutside(wvalid.lst[..], old(wvalid.lst[..]), wvalid.start, wvalid.end)
    ensures SameOutside(wusecount.lst[..], old(wusecount.lst[..]), wusecount.start, wusecount.end)
    ensures SameOutside(wlasttime.lst[..], old(wlasttime.lst[..]), wlasttime.start, wlasttime.end)
    ensures SameOutside(wfirsttime.lst[..], old(wfirsttime.lst[..]), wfirsttime.start, wfirsttime.end)
  {
    ghost var last0, first0 := wlasttime.lst[..], wfirsttime.lst[..];
    Age(wlasttime, wfirsttime, cfg.ways);
    ghost var a := Aged(v);
    ShownIs(wvalid, wtags, wusecount, wlasttime, wfirsttime, a);
    ghost var last1, first1 := wlasttime.lst[..], wfirsttime.lst[..];
    var way;
    hit, way, slot := UseOrReplace(cfg, wtags, wvalid, wusecount, wlasttime, wfirsttime, t, a);
    AccessOutcome(cfg, v, t, a, hit, way, Shown(wvalid, wtags, wusecount, wlasttime, wfirsttime));
    SameOutsideTrans(wlasttime.lst[..], last1, last0, wlasttime.start, wlasttime.end);
    SameOutsideTrans(wfirsttime.lst[..], first1, first0, wfirsttime.start, wfirsttime.end);
  }

  lemma SameOutsideTrans<X>(a: seq<X>, b: seq<X>, c: seq<X>, start: int, end: int)
    requires SameOutside(a, b, start, end) && SameOutside(b, c, start, end)
    ensures SameOutside(a, c, start, end)
  {
  }

  /** After the aging: a hit on the first way holding `t` if that way is valid, otherwise a replacement. */
  method UseOrReplace(cfg: Config, wtags: ListView<int>, wvalid: ListView<bool>, wusecount: ListView<int>,
                      wlasttime: ListView<int>, wfirsttime: ListView<int>, t: int, ghost a: Slots)
    returns (hit: bool, way: nat, slot: int)
    requires WaysOk(cfg) && Shaped(a, cfg.ways)
    requires wtags.Valid() && wvalid.Valid() && wusecount.Valid() && wlasttime.Valid() && wfirsttime.Valid()
    requires Shown(wvalid, wtags, wusecount, wlasttime, wfirsttime) == a
    requires Apart(wtags.lst, wusecount.lst, wlasttime.lst, wfirsttime.lst)
    modifies wtags.lst, wvalid.lst, wusecount.lst, wlasttime.lst, wfirsttime.lst
    ensures hit <==> Find(a.tags, t).Some? && a.valid[Find(a.tags, t).value]
    ensures hit ==> (way == Find(a.tags, t).value && slot == wtags.start + t
                     && Shown(wvalid, wtags, wusecount, wlasttime, wfirsttime)
                        == a.(usecount := a.usecount[way := a.usecount[way] + 1], lasttime := a.lasttime[way := 0]))
    ensures !hit ==> (way == Victim(cfg, a) && slot == wtags.start + way
                      && Shown(wvalid, wtags, wusecount, wlasttime, wfirsttime)
                         == Slots(a.valid[way := true], a.tags[way := t], a.usecount[way := 1], a.lasttime[way := 0],
                                  a.firsttime[way := 0]))
    ensures SameOutside(wtags.lst[..], old(wtags.lst[..]), wtags.start, wtags.end)
    ensures SameOutside(wvalid.lst[..], old(wvalid.lst[..]), wvalid.start, wvalid.end)
    ensures SameOutside(wusecount.lst[..], old(wusecount.lst[..]), wusecount.start, wusecount.end)
    ensures SameOutside(wlasttime.lst[..], old(wlasttime.lst[..]), wlasttime.start, wlasttime.end)
    ensures SameOutside(wfirsttime.lst[..], old(wfirsttime.lst[..]), wfirsttime.start, wfirsttime.end)
  {
    hit := Probe(wtags, wvalid, t);
    assert wtags.Elements() == a.tags && wvalid.Elements() == a.valid;
    if hit {
      way, slot := HitWay(wtags, wvalid, wusecount, wlasttime, wfirsttime, t, a);
    } else {
      way, slot := ReplaceWay(cfg, wtags, wvalid, wusecount, wlasttime, wfirsttime, t, a);
    }
  }

  /** The writes of a hit on the first way holding `t`; `last_access` then names `start + t`. */
  method HitWay(wtags: ListView<int>, wvalid: ListView<bool>, wusecount: ListView<int>, wlasttime: ListView<int>,
                wfirsttime: ListView<int>, t: int, ghost a: Slots) returns (way: nat, slot: int)
    requires wtags.Valid() && wvalid.Valid() && wusecount.Valid() && wlasttime.Valid() && wfirsttime.Valid()
    requires Shown(wvalid, wtags, wusecount, wlasttime, wfirsttime) == a && Shaped(a, |a.valid|)
    requires Apart(wtags.lst, wusecount.lst, wlasttime.lst, wfirsttime.lst)
    requires Find(a.tags, t).Some?
    modifies wusecount.lst, wlasttime.lst
    ensures way == Find(a.tags, t).value
    ensures Shown(wvalid, wtags, wusecount, wlasttime, wfirsttime)
        == a.(usecount := a.usecount[way := a.usecount[way] + 1], lasttime := a.lasttime[way := 0])
    ensures slot == wtags.start + t
    ensures SameOutside(wusecount.lst[..], old(wusecount.lst[..]), wusecount.start, wusecount.end)
    ensures SameOutside(wlasttime.lst[..], old(wlasttime.lst[..]), wlasttime.start, wlasttime.end)
  {
    assert wtags.Elements() == a.tags;
    var found := wtags.Index(t);
    way := found.value;
    UseWay(wtags, wvalid, wusecount, wlasttime, wfirsttime, way, a);
    slot := wtags.Original(t);
  }

  /** Five windows showing the five lists of `s` show `s`. */
  lemma ShownIs(wvalid: ListView<bool>, wtags: ListView<int>, wusecount: ListView<int>, wlasttime: ListView<int>,
                wfirsttime: ListView<int>, s: Slots)
    requires wtags.Valid() && wvalid.Valid() && wusecount.Valid() && wlasttime.Valid() && wfirsttime.Valid()
    requires wvalid.Elements() == s.valid && wtags.Elements() == s.tags && wusecount.Elements() == s.usecount
    requires wlasttime.Elements() == s.lasttime && wfirsttime.Elements() == s.firsttime
    ensures Shown(wvalid, wtags, wusecount, wlasttime, wfirsttime) == s
  {
  }

  /** A hit on `way`: it is used once more and is now the most recent; nothing else in the set changes. */
  method UseWay(wtags: ListView<int>, wvalid: ListView<bool>, wusecount: ListView<int>, wlasttime: ListView<int>,
                wfirsttime: ListView<int>, way: nat, ghost a: Slots)
    requires wtags.Valid() && wvalid.Valid() && wusecount.Valid() && wlasttime.Valid() && wfirsttime.Valid()
    requires Shown(wvalid, wtags, wusecount, wlasttime, wfirsttime) == a && Shaped(a, |a.valid|)
    requires Apart(wtags.lst, wusecount.lst, wlasttime.lst, wfirsttime.lst)
    requires way < |a.valid|
    modifies wusecount.lst, wlasttime.lst
    ensures Shown(wvalid, wtags, wusecount, wlasttime, wfirsttime)
        == a.(usecount := a.usecount[way := a.usecount[way] + 1], lasttime := a.lasttime[way := 0])
    ensures SameOutside(wusecount.lst[..], old(wusecount.lst[..]), wusecount.start, wusecount.end)
    ensures SameOutside(wlasttime.lst[..], old(wlasttime.lst[..]), wlasttime.start, wlasttime.end)
  {
    assert wusecount.Elements() == a.usecount && wlasttime.Elements() == a.lasttime;
    Bump(wusecount, way);
    Write(wlasttime, way, 0);
    ShownIs(wvalid, wtags, wusecount, wlasttime, wfirsttime,
            Slots(a.valid, a.tags, a.usecount[way := a.usecount[way] + 1], a.lasttime[way := 0], a.firsttime));
  }

  /** A miss: the victim way gets `t`, becomes valid, is used once and is new. */
  method ReplaceWay(cfg: Config, wtags: ListView<int>, wvalid: ListView<bool>, wusecount: ListView<int>,
                    wlasttime: ListView<int>, wfirsttime: ListView<int>, t: int, ghost a: Slots) returns (way: nat, slot: int)
    requires WaysOk(cfg) && Shaped(a, cfg.ways)
    requires wtags.Valid() && wvalid.Valid() && wusecount.Valid() && wlasttime.Valid() && wfirsttime.Valid()
    requires Shown(wvalid, wtags, wusecount, wlasttime, wfirsttime) == a
    requires Apart(wtags.lst, wusecount.lst, wlasttime.lst, wfirsttime.lst)
    modifies wtags.lst, wvalid.lst, wusecount.lst, wlasttime.lst, wfirsttime.lst
    ensures way == Victim(cfg, a)
    ensures Shown(wvalid, wtags, wusecount, wlasttime, wfirsttime)
        == Slots(a.valid[way := true], a.tags[way := t], a.usecount[way := 1], a.lasttime[way := 0], a.firsttime[way := 0])
    ensures slot == wtags.start + way
    ensures SameOutside(wtags.lst[..], old(wtags.lst[..]), wtags.start, wtags.end)
    ensures SameOutside(wvalid.lst[..], old(wvalid.lst[..]), wvalid.start, wvalid.end)
    ensures SameOutside(wusecount.lst[..], old(wusecount.lst[..]), wusecount.start, wusecount.end)
    ensures SameOutside(wlasttime.lst[..], old(wlasttime.lst[..]), wlasttime.start, wlasttime.end)
    ensures SameOutside(wfirsttime.lst[..], old(wfirsttime.lst[..]), wfirsttime.start, wfirsttime.end)
  {
    way := ChooseVictim(cfg, wusecount, wlasttime, wfirsttime, a);
    Install(wtags, wvalid, wusecount, wlasttime, wfirsttime, way, t);
    slot := wtags.Original(way);
  }

  /** The way a miss replaces: way 0 when direct mapped, otherwise the policy's `min`/`max` over the set. */
  method ChooseVictim(cfg: Config, wusecount: ListView<int>, wlasttime: ListView<int>, wfirsttime: ListView<int>,
                      ghost v: Slots) returns (way: nat)
    requires WaysOk(cfg) && Shaped(v, cfg.ways)
    requires wusecount.Valid() && wlasttime.Valid() && wfirsttime.Valid()
    requires wusecount.Elements() == v.usecount && wlasttime.Elements() == v.lasttime && wfirsttime.Elements() == v.firsttime
    ensures way == Victim(cfg, v)
  {
    if cfg.ways == 1 {
      way := 0;
    } else if cfg.policy == Some(Lfu) {
      way := FirstMin(wusecount);
    } else if cfg.policy == Some(Lru) {
      way := FirstMax(wlasttime);
    } else {
      way := FirstMax(wfirsttime);
    }
  }

  class Cache {
    const partitionSize: int
    const partitions: nat
    const ways: nat
    const sets: nat
    const policy: Option<Policy>
    var valid: array<bool>
    var tags: array<int>
    var usecount: array<int>
    var lasttime: array<int>
    var firsttime: array<int>
    var hits: nat
    var misses: nat
    var lastAccess: LastAccess

    /** The configuration the constructor stored. */
    function Cfg(): Config
    {
      Config(partitionSize, partitions, ways, sets, policy)
    }

    /** The lists have one entry per slot and are five different lists. */
    ghost predicate Valid()
      reads this
    {
      ConfigOk(Cfg())
      && valid.Length == partitions && tags.Length == partitions && usecount.Length == partitions
      && lasttime.Length == partitions && firsttime.Length == partitions
      && Apart(tags, usecount, lasttime, firsttime)
    }

    function Contents(): (v: Slots)
      reads this, valid, tags, usecount, lasttime, firsttime
      requires Valid()
      ensures Shaped(v, partitions)
    {
      SlotsOf(valid, tags, usecount, lasttime, firsttime)
    }

    /** The whole observable state, as `CacheModel` describes it. */
    function Snapshot(): (st: CacheState)
      reads this, valid, tags, usecount, lasttime, firsttime
      requires Valid()
      ensures StateShaped(Cfg(), st)
    {
      CacheState(Contents(), hits, misses, lastAccess)
    }

    /** `__init__` once its checks have passed. */
    constructor (cfg: Config)
      requires ConfigOk(cfg)
      ensures Valid() && Cfg() == cfg && Snapshot() == Initial(cfg)
    {
      partitionSize := cfg.partitionSize;
      partitions := cfg.partitions;
      ways := cfg.ways;
      sets := cfg.sets;
      policy := cfg.policy;
      new;
      Reset();
    }

    /** `Cache(partition_size, partitions, ways, policy)`, raising as `__init__` does. */
    static method Create(partitionSize: int, partitions: nat, ways: nat, policy: Option<string>) returns (r: Result<Cache>)
      ensures r.Ok? <==> MakeConfig(partitionSize, partitions, ways, policy).Ok?
      ensures r.Err? ==> r.error == MakeConfig(partitionSize, partitions, ways, policy).error
      ensures r.Ok? ==> fresh(r.value) && r.value.Valid()
      ensures r.Ok? ==> r.value.Cfg() == MakeConfig(partitionSize, partitions, ways, policy).value
      ensures r.Ok? ==> r.value.Snapshot() == Initial(r.value.Cfg())
    {
      match MakeConfig(partitionSize, partitions, ways, policy) {
        case Err(e) =>
          return Err(e);
        case Ok(cfg) =>
          var c := new Cache(cfg);
          return Ok(c);
      }
    }

    /**
     * `access(ref)`: the two `divmod`s locate the set, `AccessSet` ages it
     * and hits or replaces a way, and the counters and `last_access` follow.
     */
    method Access(ref: int) returns (outcome: Outcome)
      requires Valid()
      modifies this, valid, tags, usecount, lasttime, firsttime
      ensures Valid()
      ensures valid == old(valid) && tags == old(tags) && usecount == old(usecount)
      ensures lasttime == old(lasttime) && firsttime == old(firsttime)
      ensures Step(Cfg(), old(Snapshot()), ref).Ok? ==> outcome == Pass && Snapshot() == Step(Cfg(), old(Snapshot()), ref).value
      ensures Step(Cfg(), old(Snapshot()), ref).Err? ==> outcome == Fail(ZeroDivisionError) && Snapshot() == old(Snapshot())
    {
      if partitionSize == 0 || sets == 0 {
        return Fail(ZeroDivisionError);
      }
      ghost var s0 := Snapshot();
      var hit, slot := AccessArrays(Cfg(), valid, tags, usecount, lasttime, firsttime, s0, ref);
      if hit {
        hits := hits + 1;
      } else {
        misses := misses + 1;
      }
      lastAccess := Accessed(hit, slot);
      return Pass;
    }

    /** `access_all(refs)` on a list: the accesses in order; the first that raises ends the run. */
    method AccessAll(refs: seq<int>) returns (outcome: Outcome)
      requires Valid()
      modifies this, valid, tags, usecount, lasttime, firsttime
      ensures Valid()
      ensures valid == old(valid) && tags == old(tags) && usecount == old(usecount)
      ensures lasttime == old(lasttime) && firsttime == old(firsttime)
      ensures Run(Snapshot(), outcome) == RunAll(Cfg(), old(Snapshot()), refs)
    {
      var i := 0;
      while i < |refs|
        invariant 0 <= i <= |refs| && Valid()
        invariant valid == old(valid) && tags == old(tags) && usecount == old(usecount)
        invariant lasttime == old(lasttime) && firsttime == old(firsttime)
        invariant RunAll(Cfg(), old(Snapshot()), refs) == RunAll(Cfg(), Snapshot(), refs[i..])
      {
        assert refs[i..][1..] == refs[i + 1..];
        outcome := Access(refs[i]);
        if outcome.Fail? {
          return;
        }
        i := i + 1;
      }
      return Pass;
    }

    /** `access_all(text)` on a string: parse every piece first, then access them in order. */
    method AccessAllText(text: string) returns (outcome: Outcome)
      requires Valid()
      modifies this, valid, tags, usecount, lasttime, firsttime
      ensures Valid()
      ensures valid == old(valid) && tags == old(tags) && usecount == old(usecount)
      ensures lasttime == old(lasttime) && firsttime == old(firsttime)
      ensures Run(Snapshot(), outcome) == RunText(Cfg(), old(Snapshot()), text)
    {
      match ParseRefs(text) {
        case Err(e) =>
          return Fail(e);
        case Ok(refs) =>
          outcome := AccessAll(refs);
      }
    }

    /** `content_of(partition)`, read off the arrays. */
    function ContentOfSlot(partition: nat): (r: Result<string>)
      reads this, valid, tags, usecount, lasttime, firsttime
      requires Valid()
      ensures r == ContentOf(Cfg(), Snapshot(), partition)
    {
      if partition >= partitions then Err(IndexError)
      else if !valid[partition] then Ok("")
      else
        var k := partition / ways;
        var block := tags[partition] * Pow2(BitLength(k)) + k;
        var start := block * partitionSize;
        Ok(IntToString(start) + "-" + IntToString(start + partitionSize - 1))
    }

    /** `reset`: fresh lists of unused, invalid slots and zeroed counters. */
    method Reset()
      requires ConfigOk(Cfg())
      modifies this
      ensures Valid() && Snapshot() == Initial(Cfg())
      ensures fresh(valid) && fresh(tags) && fresh(usecount) && fresh(lasttime) && fresh(firsttime)
    {
      var v, t, u, l, f := FreshLists(partitions);
      ghost var blank := Initial(Cfg()).slots;
      assert SlotsOf(v, t, u, l, f) == blank;
      valid, tags := v, t;
      misses, hits := 0, 0;
      lastAccess := NoAccess;
      usecount, lasttime, firsttime := u, l, f;
      assert Contents() == blank;
    }
  }
}
