/**
 * The state machine behind `Cache` in cache-emu/memory.py, on values.
 * `Memory.Cache` runs it on arrays; the lemmas here say what it promises.
 */
module CacheModel {
  import opened Wrappers
  import opened PyInt
  import opened ListViews
  import opened Text

  datatype Policy = Lfu | Lru | Fifo

  /** The fields the constructor stores; `sets` is `partitions // ways`. */
  datatype Config = Config(partitionSize: int, partitions: nat, ways: nat, sets: nat, policy: Option<Policy>)

  /** What a configuration that passed the constructor's checks satisfies. */
  predicate ConfigOk(cfg: Config)
  {
    WaysOk(cfg) && cfg.sets == cfg.partitions / cfg.ways
  }

  /** The part of `ConfigOk` one set needs: at least one way, and a policy whenever there is a choice of victim. */
  predicate WaysOk(cfg: Config)
  {
    cfg.ways >= 1 && (cfg.ways != 1 ==> cfg.policy.Some?)
  }

  function PolicyName(p: Policy): string
  {
    match p
    case Lfu => "lfu"
    case Lru => "lru"
    case Fifo => "fifo"
  }

  /** The checks of `Cache.__init__`, in its order, and the stored configuration. */
  function MakeConfig(partitionSize: int, partitions: nat, ways: nat, policy: Option<string>): (r: Result<Config>)
    ensures r.Ok? <==> (ways == 1 || policy.Some?) && (policy.None? || policy.value in {"lfu", "lru", "fifo"}) && ways != 0
    ensures r.Err? && ((ways != 1 && policy.None?) || (policy.Some? && policy.value !in {"lfu", "lru", "fifo"})) ==> r.error == ValueError
    ensures ways == 0 && policy.Some? && policy.value in {"lfu", "lru", "fifo"} ==> r == Err(ZeroDivisionError)
    ensures r.Ok? ==> ConfigOk(r.value) && r.value.partitionSize == partitionSize
    ensures r.Ok? ==> r.value.partitions == partitions && r.value.ways == ways && r.value.sets == partitions / ways
    ensures r.Ok? ==> (policy.None? <==> r.value.policy.None?)
    ensures r.Ok? && policy.Some? ==> PolicyName(r.value.policy.value) == policy.value
  {
    if ways != 1 && policy.None? then Err(ValueError)
    else if policy.Some? && policy.value !in ["lfu", "lru", "fifo"] then Err(ValueError)
    else if ways == 0 then Err(ZeroDivisionError)
    else
      var p := if policy.None? then None
               else if policy.value == "lfu" then Some(Lfu)
               else if policy.value == "lru" then Some(Lru)
               else Some(Fifo);
      Ok(Config(partitionSize, partitions, ways, partitions / ways, p))
  }

  /** The five per-slot lists, of the whole cache or of one set. */
  datatype Slots = Slots(valid: seq<bool>, tags: seq<int>, usecount: seq<int>, lasttime: seq<int>, firsttime: seq<int>)

  predicate Shaped(v: Slots, n: nat)
  {
    |v.valid| == n && |v.tags| == n && |v.usecount| == n && |v.lasttime| == n && |v.firsttime| == n
  }

  /** `last_access`: `(None, None)` after `reset`, otherwise whether it hit and which slot it reports. */
  datatype LastAccess = NoAccess | Accessed(hit: bool, slot: int)

  datatype CacheState = CacheState(slots: Slots, hits: nat, misses: nat, lastAccess: LastAccess)

  predicate StateShaped(cfg: Config, st: CacheState)
  {
    Shaped(st.slots, cfg.partitions)
  }

  /** The state `reset` installs. */
  function Initial(cfg: Config): (st: CacheState)
    ensures StateShaped(cfg, st) && st.hits == 0 && st.misses == 0 && st.lastAccess == NoAccess
    ensures forall i :: 0 <= i < cfg.partitions ==>
      !st.slots.valid[i] && st.slots.tags[i] == 0 && st.slots.usecount[i] == 0
      && st.slots.lasttime[i] == 0 && st.slots.firsttime[i] == 0
  {
    var n := cfg.partitions;
    CacheState(Slots(Constant(n, false), Constant(n, 0), Constant(n, 0), Constant(n, 0), Constant(n, 0)),
               0, 0, NoAccess)
  }

  /** `[x] * n`. */
  function Constant<X>(n: nat, x: X): (s: seq<X>)
    ensures |s| == n && forall i :: 0 <= i < n ==> s[i] == x
  {
    seq(n, _ => x)
  }

  // ---------------------------------------------------------------- addresses

  /** The two `divmod`s of `access`: memory block, word offset, tag and set index. */
  datatype Address = Address(block: int, offset: int, tag: int, index: nat)

  function Locate(cfg: Config, ref: int): (a: Address)
    requires cfg.partitionSize != 0 && cfg.sets > 0
    ensures ref == a.block * cfg.partitionSize + a.offset
    ensures cfg.partitionSize > 0 ==> 0 <= a.offset < cfg.partitionSize
    ensures cfg.partitionSize < 0 ==> cfg.partitionSize < a.offset <= 0
    ensures a.block == a.tag * cfg.sets + a.index && a.index < cfg.sets
  {
    var block := FloorDiv(ref, cfg.partitionSize);
    Address(block, FloorMod(ref, cfg.partitionSize), block / cfg.sets, block % cfg.sets)
  }

  /** Set `k`'s slots `[k*ways, k*ways + ways)` lie inside the cache. */
  lemma SetBounds(cfg: Config, k: nat)
    requires ConfigOk(cfg) && k < cfg.sets
    ensures k * cfg.ways + cfg.ways <= cfg.partitions
  {
    MulStrictMono(cfg.ways, cfg.sets, k + 1);
    assert cfg.ways * (k + 1) == k * cfg.ways + cfg.ways;
    assert cfg.partitions == cfg.ways * cfg.sets + cfg.partitions % cfg.ways;
  }

  /** The slots of two different sets do not overlap. */
  lemma SetsDisjoint(cfg: Config, k: nat, l: nat)
    requires ConfigOk(cfg) && k < l
    ensures k * cfg.ways + cfg.ways <= l * cfg.ways
  {
    MulStrictMono(cfg.ways, l, k + 1);
    assert cfg.ways * (k + 1) == k * cfg.ways + cfg.ways;
  }

  // ---------------------------------------------------------------- windows

  /** The `ListView` windows of one set: slots `[start, start + n)`. */
  function Window(v: Slots, start: nat, n: nat): (w: Slots)
    requires Shaped(v, |v.valid|) && start + n <= |v.valid|
    ensures Shaped(w, n)
  {
    Slots(v.valid[start..start + n], v.tags[start..start + n], v.usecount[start..start + n],
          v.lasttime[start..start + n], v.firsttime[start..start + n])
  }

  /** `s` with `w` written over positions `[start, start + |w|)`. */
  function SpliceSeq<X>(s: seq<X>, start: nat, w: seq<X>): (r: seq<X>)
    requires start + |w| <= |s|
    ensures |r| == |s|
    ensures forall j :: 0 <= j < |s| ==> r[j] == if start <= j < start + |w| then w[j - start] else s[j]
  {
    s[..start] + w + s[start + |w|..]
  }

  /** Writing through the windows of one set. */
  function Splice(v: Slots, start: nat, w: Slots): (r: Slots)
    requires Shaped(v, |v.valid|) && Shaped(w, |w.valid|) && start + |w.valid| <= |v.valid|
    ensures Shaped(r, |v.valid|)
  {
    Slots(SpliceSeq(v.valid, start, w.valid), SpliceSeq(v.tags, start, w.tags), SpliceSeq(v.usecount, start, w.usecount),
          SpliceSeq(v.lasttime, start, w.lasttime), SpliceSeq(v.firsttime, start, w.firsttime))
  }

  lemma WindowOfSplice(v: Slots, start: nat, w: Slots)
    requires Shaped(v, |v.valid|) && Shaped(w, |w.valid|) && start + |w.valid| <= |v.valid|
    ensures Window(Splice(v, start, w), start, |w.valid|) == w
  {
    var r := Window(Splice(v, start, w), start, |w.valid|);
    assert r.valid == w.valid && r.tags == w.tags && r.usecount == w.usecount;
    assert r.lasttime == w.lasttime && r.firsttime == w.firsttime;
  }

  lemma WindowBesideSplice(v: Slots, start: nat, w: Slots, other: nat, n: nat)
    requires Shaped(v, |v.valid|) && Shaped(w, |w.valid|) && start + |w.valid| <= |v.valid|
    requires other + n <= |v.valid|
    requires other + n <= start || start + |w.valid| <= other
    ensures Window(Splice(v, start, w), other, n) == Window(v, other, n)
  {
    var r := Window(Splice(v, start, w), other, n);
    var o := Window(v, other, n);
    assert r.valid == o.valid && r.tags == o.tags && r.usecount == o.usecount;
    assert r.lasttime == o.lasttime && r.firsttime == o.firsttime;
  }

  // ---------------------------------------------------------------- one set

  /** Every way of the set got older: lasttime and firsttime rise by one. */
  function Incremented(s: seq<int>): (r: seq<int>)
    ensures |r| == |s| && forall k :: 0 <= k < |s| ==> r[k] == s[k] + 1
  {
    seq(|s|, k requires 0 <= k < |s| => s[k] + 1)
  }

  function Aged(v: Slots): (a: Slots)
    requires Shaped(v, |v.valid|)
    ensures Shaped(a, |v.valid|)
  {
    v.(lasttime := Incremented(v.lasttime), firsttime := Incremented(v.firsttime))
  }

  /** `min(range(len(s)), key=s.__getitem__)`: the first position of a least element. */
  function ArgMin(s: seq<int>): (k: nat)
    requires |s| > 0
    ensures k < |s|
    ensures forall j :: 0 <= j < |s| ==> s[k] <= s[j]
    ensures forall j :: 0 <= j < k ==> s[j] > s[k]
  {
    if |s| == 1 then 0
    else
      var k := ArgMin(s[..|s| - 1]);
      if s[|s| - 1] < s[k] then |s| - 1 else k
  }

  /** `max(range(len(s)), key=s.__getitem__)`: the first position of a greatest element. */
  function ArgMax(s: seq<int>): (k: nat)
    requires |s| > 0
    ensures k < |s|
    ensures forall j :: 0 <= j < |s| ==> s[j] <= s[k]
    ensures forall j :: 0 <= j < k ==> s[j] < s[k]
  {
    if |s| == 1 then 0
    else
      var k := ArgMax(s[..|s| - 1]);
      if s[|s| - 1] > s[k] then |s| - 1 else k
  }

  /** The way a miss replaces: way 0 when direct mapped, otherwise as the policy says. */
  function Victim(cfg: Config, v: Slots): (w: nat)
    requires WaysOk(cfg) && Shaped(v, cfg.ways)
    ensures w < cfg.ways
  {
    if cfg.ways == 1 then 0
    else match cfg.policy.value
      case Lfu => ArgMin(v.usecount)
      case Lru => ArgMax(v.lasttime)
      case Fifo => ArgMax(v.firsttime)
  }

  /** What one access does to the windows of its set, whether it hit, and which way it used. */
  datatype SetOutcome = SetOutcome(view: Slots, hit: bool, way: nat)

  function SetAccess(cfg: Config, v: Slots, tag: int): (o: SetOutcome)
    requires WaysOk(cfg) && Shaped(v, cfg.ways)
    ensures Shaped(o.view, cfg.ways) && o.way < cfg.ways
  {
    var a := Aged(v);
    var f := Find(a.tags, tag);
    if f.Some? && a.valid[f.value] then
      var w := f.value;
      SetOutcome(a.(usecount := a.usecount[w := a.usecount[w] + 1], lasttime := a.lasttime[w := 0]), true, w)
    else
      var w := Victim(cfg, a);
      SetOutcome(Slots(a.valid[w := true], a.tags[w := tag], a.usecount[w := 1], a.lasttime[w := 0], a.firsttime[w := 0]),
                 false, w)
  }

  /**
   * What one access does to its set `v`: a hit is the first way holding the
   * tag when that way is valid, a miss replaces the victim of the aged set;
   * afterwards the way used holds the tag and every other way only got older.
   */
  lemma SetAccessSpec(cfg: Config, v: Slots, tag: int, o: SetOutcome)
    requires WaysOk(cfg) && Shaped(v, cfg.ways) && o == SetAccess(cfg, v, tag)
    ensures o.view.valid[o.way] && o.view.tags[o.way] == tag
    ensures o.hit <==> Find(v.tags, tag).Some? && v.valid[Find(v.tags, tag).value]
    ensures o.hit ==> Find(v.tags, tag) == Some(o.way)
    ensures !o.hit ==> o.way == Victim(cfg, Aged(v))
    ensures forall i :: 0 <= i < cfg.ways && i != o.way ==>
      o.view.valid[i] == v.valid[i] && o.view.tags[i] == v.tags[i] && o.view.usecount[i] == v.usecount[i]
      && o.view.lasttime[i] == v.lasttime[i] + 1 && o.view.firsttime[i] == v.firsttime[i] + 1
    ensures o.hit ==> (o.view.usecount[o.way] == v.usecount[o.way] + 1 && o.view.lasttime[o.way] == 0
                       && o.view.firsttime[o.way] == v.firsttime[o.way] + 1)
    ensures !o.hit ==> o.view.usecount[o.way] == 1 && o.view.lasttime[o.way] == 0 && o.view.firsttime[o.way] == 0
  {
  }

  // ---------------------------------------------------------------- one access

  /**
   * `access(ref)`: locate the set, age it, then hit or replace. On a hit
   * `last_access` reports slot `start + tag`, on a miss `start + way`.
   */
  function Step(cfg: Config, st: CacheState, ref: int): (r: Result<CacheState>)
    requires ConfigOk(cfg) && StateShaped(cfg, st)
    ensures r.Err? <==> cfg.partitionSize == 0 || cfg.sets == 0
    ensures r.Err? ==> r.error == ZeroDivisionError
    ensures r.Ok? ==> StateShaped(cfg, r.value)
    ensures r.Ok? ==> r.value.hits + r.value.misses == st.hits + st.misses + 1
    ensures r.Ok? ==> r.value.hits == st.hits + 1 || r.value.misses == st.misses + 1
  {
    if cfg.partitionSize == 0 || cfg.sets == 0 then Err(ZeroDivisionError)
    else
      var a := Locate(cfg, ref);
      SetBounds(cfg, a.index);
      var start := a.index * cfg.ways;
      Ok(Advance(cfg, st, start, a.tag, SetAccess(cfg, Window(st.slots, start, cfg.ways), a.tag)))
  }

  /** The state after set access `o` on the set starting at slot `start`, for tag `tag`. */
  function Advance(cfg: Config, st: CacheState, start: nat, tag: int, o: SetOutcome): CacheState
    requires ConfigOk(cfg) && StateShaped(cfg, st) && start + cfg.ways <= cfg.partitions && Shaped(o.view, cfg.ways)
  {
    CacheState(Splice(st.slots, start, o.view),
               if o.hit then st.hits + 1 else st.hits,
               if o.hit then st.misses else st.misses + 1,
               Accessed(o.hit, if o.hit then start + tag else start + o.way))
  }

  /** `access_all` on a list: the accesses in order, stopping at the first that raises. */
  datatype Run = Run(state: CacheState, outcome: Outcome)

  function RunAll(cfg: Config, st: CacheState, refs: seq<int>): (r: Run)
    requires ConfigOk(cfg) && StateShaped(cfg, st)
    ensures StateShaped(cfg, r.state)
    ensures r.outcome.Pass? ==> r.state.hits + r.state.misses == st.hits + st.misses + |refs|
    ensures r.outcome.Fail? ==> r.state == st && r.outcome.error == ZeroDivisionError && refs != []
    decreases |refs|
  {
    if refs == [] then Run(st, Pass)
    else match Step(cfg, st, refs[0]) {
      case Err(e) => Run(st, Fail(e))
      case Ok(next) => RunAll(cfg, next, refs[1..])
    }
  }

  // ---------------------------------------------------------------- the set invariant

  /**
   * What every set keeps between accesses: its valid ways form a prefix, no
   * two valid ways hold the same tag, a way has been used iff it is valid,
   * and the invalid ways are older (by both ages) than every valid way and
   * equally old among themselves.
   */
  predicate SetInv(v: Slots)
    requires Shaped(v, |v.valid|)
  {
    var n := |v.valid|;
    (forall i, j :: 0 <= i < j < n && v.valid[j] ==> v.valid[i])
    && (forall i, j :: 0 <= i < j < n && v.valid[i] && v.valid[j] ==> v.tags[i] != v.tags[j])
    && (forall i :: 0 <= i < n ==> v.usecount[i] >= 0 && (v.valid[i] <==> v.usecount[i] >= 1))
    && (forall i :: 0 <= i < n ==> v.lasttime[i] >= 0 && v.firsttime[i] >= 0)
    && (forall i, j :: 0 <= i < n && 0 <= j < n && !v.valid[i] && v.valid[j] ==>
          v.lasttime[i] > v.lasttime[j] && v.firsttime[i] > v.firsttime[j])
    && (forall i, j :: 0 <= i < n && 0 <= j < n && !v.valid[i] && !v.valid[j] ==>
          v.lasttime[i] == v.lasttime[j] && v.firsttime[i] == v.firsttime[j])
  }

  lemma AgedInv(v: Slots)
    requires Shaped(v, |v.valid|) && SetInv(v)
    ensures SetInv(Aged(v)) && forall i :: 0 <= i < |v.valid| ==> Aged(v).lasttime[i] >= 1 && Aged(v).firsttime[i] >= 1
  {
  }

  /** Whatever the policy, a miss in a set with an invalid way fills the first invalid way. */
  lemma VictimIsFirstInvalid(cfg: Config, v: Slots, i: nat)
    requires WaysOk(cfg) && Shaped(v, cfg.ways) && SetInv(v)
    requires i < cfg.ways && !v.valid[i]
    ensures !v.valid[Victim(cfg, v)]
    ensures forall j :: 0 <= j < Victim(cfg, v) ==> v.valid[j]
  {
    var w := Victim(cfg, v);
    if cfg.ways != 1 {
      match cfg.policy.value
      case Lfu =>
        assert v.usecount[w] <= v.usecount[i] == 0;
      case Lru =>
        assert v.lasttime[w] >= v.lasttime[i];
      case Fifo =>
        assert v.firsttime[w] >= v.firsttime[i];
    }
  }

  /** A hit bumps the use count of a valid way and makes it the most recent. */
  lemma HitKeepsInv(a: Slots, w: nat)
    requires Shaped(a, |a.valid|) && SetInv(a) && w < |a.valid| && a.valid[w]
    requires forall i :: 0 <= i < |a.valid| ==> a.lasttime[i] >= 1
    ensures SetInv(a.(usecount := a.usecount[w := a.usecount[w] + 1], lasttime := a.lasttime[w := 0]))
  {
  }

  /** A miss installs the tag in the first invalid way, or in any way of a full set. */
  lemma MissKeepsInv(a: Slots, w: nat, tag: int)
    requires Shaped(a, |a.valid|) && SetInv(a) && w < |a.valid|
    requires forall i :: 0 <= i < |a.valid| ==> a.lasttime[i] >= 1 && a.firsttime[i] >= 1
    requires !a.valid[w] ==> forall j :: 0 <= j < w ==> a.valid[j]
    requires a.valid[w] ==> forall j :: 0 <= j < |a.valid| ==> a.valid[j]
    requires forall i :: 0 <= i < |a.valid| && i != w && a.valid[i] ==> a.tags[i] != tag
    ensures SetInv(Slots(a.valid[w := true], a.tags[w := tag], a.usecount[w := 1], a.lasttime[w := 0], a.firsttime[w := 0]))
  {
  }

  /** `Find` reports a position no later than any occurrence. */
  lemma FindNoLater(s: seq<int>, x: int, i: nat)
    requires i < |s|
    ensures s[i] == x ==> Find(s, x).Some? && Find(s, x).value <= i
  {
    FindSpec(s, x);
  }

  /** When the hit test fails, no valid way holds the tag. */
  lemma MissTagFree(a: Slots, tag: int)
    requires Shaped(a, |a.valid|) && SetInv(a)
    requires !(Find(a.tags, tag).Some? && a.valid[Find(a.tags, tag).value])
    ensures forall i :: 0 <= i < |a.valid| && a.valid[i] ==> a.tags[i] != tag
  {
    forall i | 0 <= i < |a.valid| && a.valid[i]
      ensures a.tags[i] != tag
    {
      FindNoLater(a.tags, tag, i);
    }
  }

  /** One access keeps the set invariant. */
  lemma SetAccessInv(cfg: Config, v: Slots, tag: int)
    requires WaysOk(cfg) && Shaped(v, cfg.ways) && SetInv(v)
    ensures SetInv(SetAccess(cfg, v, tag).view)
  {
    var a := Aged(v);
    var f := Find(a.tags, tag);
    if f.Some? && a.valid[f.value] {
      SetAccessHitInv(cfg, v, tag);
    } else {
      SetAccessMissInv(cfg, v, tag);
    }
  }

  /** A hit keeps the set invariant. */
  lemma SetAccessHitInv(cfg: Config, v: Slots, tag: int)
    requires WaysOk(cfg) && Shaped(v, cfg.ways) && SetInv(v)
    requires var a := Aged(v); Find(a.tags, tag).Some? && a.valid[Find(a.tags, tag).value]
    ensures SetInv(SetAccess(cfg, v, tag).view)
  {
    var a := Aged(v);
    AgedInv(v);
    var w := Find(a.tags, tag).value;
    HitView(cfg, v, tag);
    HitKeepsInv(a, w);
  }

  lemma HitView(cfg: Config, v: Slots, tag: int)
    requires WaysOk(cfg) && Shaped(v, cfg.ways)
    requires var a := Aged(v); Find(a.tags, tag).Some? && a.valid[Find(a.tags, tag).value]
    ensures var a := Aged(v); var w := Find(a.tags, tag).value;
      SetAccess(cfg, v, tag)
        == SetOutcome(a.(usecount := a.usecount[w := a.usecount[w] + 1], lasttime := a.lasttime[w := 0]), true, w)
  {
  }

  lemma MissView(cfg: Config, v: Slots, tag: int)
    requires WaysOk(cfg) && Shaped(v, cfg.ways)
    requires var a := Aged(v); !(Find(a.tags, tag).Some? && a.valid[Find(a.tags, tag).value])
    ensures var a := Aged(v); var w := Victim(cfg, a);
      SetAccess(cfg, v, tag) == SetOutcome(Slots(a.valid[w := true], a.tags[w := tag], a.usecount[w := 1],
                                                 a.lasttime[w := 0], a.firsttime[w := 0]), false, w)
  {
  }

  /** `SetAccess` from what the access did to the aged set: hit or not, the way it used and the windows it left. */
  lemma AccessOutcome(cfg: Config, v: Slots, tag: int, a: Slots, hit: bool, way: nat, view: Slots)
    requires WaysOk(cfg) && Shaped(v, cfg.ways) && a == Aged(v)
    requires hit <==> Find(a.tags, tag).Some? && a.valid[Find(a.tags, tag).value]
    requires hit ==> (way == Find(a.tags, tag).value
                      && view == a.(usecount := a.usecount[way := a.usecount[way] + 1], lasttime := a.lasttime[way := 0]))
    requires !hit ==> (way == Victim(cfg, a)
                       && view == Slots(a.valid[way := true], a.tags[way := tag], a.usecount[way := 1], a.lasttime[way := 0],
                                        a.firsttime[way := 0]))
    ensures SetAccess(cfg, v, tag) == SetOutcome(view, hit, way)
  {
    if hit {
      HitView(cfg, v, tag);
    } else {
      MissView(cfg, v, tag);
    }
  }

  /** A miss keeps the set invariant. */
  lemma SetAccessMissInv(cfg: Config, v: Slots, tag: int)
    requires WaysOk(cfg) && Shaped(v, cfg.ways) && SetInv(v)
    requires var a := Aged(v); !(Find(a.tags, tag).Some? && a.valid[Find(a.tags, tag).value])
    ensures SetInv(SetAccess(cfg, v, tag).view)
  {
    var a := Aged(v);
    AgedInv(v);
    var w := Victim(cfg, a);
    if i :| 0 <= i < cfg.ways && !a.valid[i] {
      VictimIsFirstInvalid(cfg, a, i);
    }
    MissTagFree(a, tag);
    MissKeepsInv(a, w, tag);
    assert SetAccess(cfg, v, tag).view == Slots(a.valid[w := true], a.tags[w := tag], a.usecount[w := 1], a.lasttime[w := 0], a.firsttime[w := 0]);
  }

  /** The first-match hit test is the same as "some valid way holds the tag". */
  lemma HitIffHeld(cfg: Config, v: Slots, tag: int)
    requires WaysOk(cfg) && Shaped(v, cfg.ways) && SetInv(v)
    ensures SetAccess(cfg, v, tag).hit <==> exists i :: 0 <= i < cfg.ways && v.valid[i] && v.tags[i] == tag
  {
    HitByFind(cfg, v, tag);
    HeldIffFirstValid(cfg, v, tag);
  }

  /** Under the invariant, the first way holding the tag is valid exactly when some valid way holds it. */
  lemma HeldIffFirstValid(cfg: Config, v: Slots, tag: int)
    requires WaysOk(cfg) && Shaped(v, cfg.ways) && SetInv(v)
    ensures Find(v.tags, tag).Some? && v.valid[Find(v.tags, tag).value]
      <==> exists i :: 0 <= i < cfg.ways && v.valid[i] && v.tags[i] == tag
  {
    var f := Find(v.tags, tag);
    if f.Some? && v.valid[f.value] {
      assert 0 <= f.value < cfg.ways && v.tags[f.value] == tag;
    }
    if i :| 0 <= i < cfg.ways && v.valid[i] && v.tags[i] == tag {
      FindNoLater(v.tags, tag, i);
      assert f.value <= i && v.valid[f.value];
    }
  }

  /** An access hits exactly when the first way holding the tag is valid. */
  lemma HitByFind(cfg: Config, v: Slots, tag: int)
    requires WaysOk(cfg) && Shaped(v, cfg.ways)
    ensures SetAccess(cfg, v, tag).hit <==> Find(v.tags, tag).Some? && v.valid[Find(v.tags, tag).value]
  {
    SetAccessSpec(cfg, v, tag, SetAccess(cfg, v, tag));
  }

  // ---------------------------------------------------------------- the cache invariant

  /** The first slot of set `k`. */
  function SetStart(cfg: Config, k: nat): (start: nat)
    requires ConfigOk(cfg) && k < cfg.sets
    ensures start == k * cfg.ways && start + cfg.ways <= cfg.partitions
  {
    SetBounds(cfg, k);
    k * cfg.ways
  }

  /** The windows of set `k`. */
  function SetWindow(cfg: Config, slots: Slots, k: nat): (v: Slots)
    requires ConfigOk(cfg) && Shaped(slots, cfg.partitions) && k < cfg.sets
    ensures Shaped(v, cfg.ways)
  {
    SetBounds(cfg, k);
    Window(slots, k * cfg.ways, cfg.ways)
  }

  predicate SetInvAt(cfg: Config, slots: Slots, k: nat)
    requires ConfigOk(cfg) && Shaped(slots, cfg.partitions) && k < cfg.sets
  {
    SetInv(SetWindow(cfg, slots, k))
  }

  /** Every set of the cache keeps `SetInv`. */
  predicate Inv(cfg: Config, st: CacheState)
    requires ConfigOk(cfg) && StateShaped(cfg, st)
  {
    forall k: nat :: k < cfg.sets ==> SetInvAt(cfg, st.slots, k)
  }

  lemma InitialInv(cfg: Config)
    requires ConfigOk(cfg)
    ensures Inv(cfg, Initial(cfg))
  {
    var st := Initial(cfg);
    forall k: nat | k < cfg.sets
      ensures SetInvAt(cfg, st.slots, k)
    {
      SetBounds(cfg, k);
      var v := Window(st.slots, k * cfg.ways, cfg.ways);
      assert forall i :: 0 <= i < cfg.ways ==> !v.valid[i] && v.usecount[i] == 0 && v.lasttime[i] == 0 && v.firsttime[i] == 0;
    }
  }

  /** Whether the block `ref` lies in is held by a valid way of its set. */
  predicate Holds(cfg: Config, st: CacheState, ref: int)
    requires ConfigOk(cfg) && StateShaped(cfg, st) && cfg.partitionSize != 0 && cfg.sets > 0
  {
    var a := Locate(cfg, ref);
    var v := SetWindow(cfg, st.slots, a.index);
    exists i :: 0 <= i < cfg.ways && v.valid[i] && v.tags[i] == a.tag
  }

  /** What an access writes to the whole cache: its set's windows, as `SetAccess` computes them. */
  lemma StepSplices(cfg: Config, st: CacheState, ref: int)
    requires ConfigOk(cfg) && StateShaped(cfg, st) && Step(cfg, st, ref).Ok?
    ensures var a := Locate(cfg, ref);
      Step(cfg, st, ref).value.slots
      == Splice(st.slots, SetStart(cfg, a.index), SetAccess(cfg, SetWindow(cfg, st.slots, a.index), a.tag).view)
  {
  }

  /** `Step` spelled out: the set's new windows, one more hit or miss, and what `last_access` reports. */
  lemma StepUnfold(cfg: Config, st: CacheState, ref: int, a: Address, start: nat, o: SetOutcome)
    requires ConfigOk(cfg) && StateShaped(cfg, st) && cfg.partitionSize != 0 && cfg.sets > 0
    requires a == Locate(cfg, ref) && start == SetStart(cfg, a.index)
    requires o == SetAccess(cfg, Window(st.slots, start, cfg.ways), a.tag)
    ensures Step(cfg, st, ref) == Ok(Advance(cfg, st, start, a.tag, o))
  {
  }

  /** `Advance` spelled out for a given new slot array, hit flag and reported slot. */
  lemma AdvanceIs(cfg: Config, st: CacheState, start: nat, tag: int, o: SetOutcome, slots: Slots, hit: bool, slot: int)
    requires ConfigOk(cfg) && StateShaped(cfg, st) && start + cfg.ways <= cfg.partitions && Shaped(o.view, cfg.ways)
    requires slots == Splice(st.slots, start, o.view) && hit == o.hit
    requires slot == if o.hit then start + tag else start + o.way
    ensures Advance(cfg, st, start, tag, o)
      == CacheState(slots, if hit then st.hits + 1 else st.hits, if hit then st.misses else st.misses + 1, Accessed(hit, slot))
  {
  }

  lemma SpliceOwnSet(cfg: Config, slots: Slots, k: nat, w: Slots)
    requires ConfigOk(cfg) && Shaped(slots, cfg.partitions) && k < cfg.sets && Shaped(w, cfg.ways)
    ensures SetWindow(cfg, Splice(slots, SetStart(cfg, k), w), k) == w
  {
    WindowOfSplice(slots, SetStart(cfg, k), w);
  }

  lemma SpliceOtherSet(cfg: Config, slots: Slots, k: nat, l: nat, w: Slots)
    requires ConfigOk(cfg) && Shaped(slots, cfg.partitions) && k < cfg.sets && l < cfg.sets && k != l
    requires Shaped(w, cfg.ways)
    ensures SetWindow(cfg, Splice(slots, SetStart(cfg, k), w), l) == SetWindow(cfg, slots, l)
  {
    if k < l { SetsDisjoint(cfg, k, l); } else { SetsDisjoint(cfg, l, k); }
    WindowBesideSplice(slots, SetStart(cfg, k), w, SetStart(cfg, l), cfg.ways);
  }

  /** An access rewrites the windows of its own set as `SetAccess` says, and no other set's. */
  lemma StepWindows(cfg: Config, st: CacheState, ref: int, k: nat)
    requires ConfigOk(cfg) && StateShaped(cfg, st) && Step(cfg, st, ref).Ok? && k < cfg.sets
    ensures var a := Locate(cfg, ref);
      SetWindow(cfg, Step(cfg, st, ref).value.slots, k)
      == if k == a.index then SetAccess(cfg, SetWindow(cfg, st.slots, a.index), a.tag).view else SetWindow(cfg, st.slots, k)
  {
    var a := Locate(cfg, ref);
    var o := SetAccess(cfg, SetWindow(cfg, st.slots, a.index), a.tag);
    StepSplices(cfg, st, ref);
    if k == a.index {
      SpliceOwnSet(cfg, st.slots, k, o.view);
    } else {
      SpliceOtherSet(cfg, st.slots, a.index, k, o.view);
    }
  }

  /** Every access keeps the invariant. */
  lemma StepInv(cfg: Config, st: CacheState, ref: int)
    requires ConfigOk(cfg) && StateShaped(cfg, st) && Inv(cfg, st) && Step(cfg, st, ref).Ok?
    ensures Inv(cfg, Step(cfg, st, ref).value)
  {
    var a := Locate(cfg, ref);
    var next := Step(cfg, st, ref).value;
    forall k: nat | k < cfg.sets
      ensures SetInvAt(cfg, next.slots, k)
    {
      StepWindows(cfg, st, ref, k);
      assert SetInvAt(cfg, st.slots, k);
      if k == a.index {
        SetAccessInv(cfg, SetWindow(cfg, st.slots, k), a.tag);
      }
    }
  }

  /** An access hits exactly when its block is held by a valid way of its set. */
  lemma StepHitIffHeld(cfg: Config, st: CacheState, ref: int)
    requires ConfigOk(cfg) && StateShaped(cfg, st) && Inv(cfg, st) && Step(cfg, st, ref).Ok?
    ensures Step(cfg, st, ref).value.hits == st.hits + 1 <==> Holds(cfg, st, ref)
    ensures Step(cfg, st, ref).value.misses == st.misses + 1 <==> !Holds(cfg, st, ref)
  {
    var a := Locate(cfg, ref);
    assert SetInvAt(cfg, st.slots, a.index);
    HitIffHeld(cfg, SetWindow(cfg, st.slots, a.index), a.tag);
  }

  /** After an access its block is held. */
  lemma StepHolds(cfg: Config, st: CacheState, ref: int)
    requires ConfigOk(cfg) && StateShaped(cfg, st) && Step(cfg, st, ref).Ok?
    ensures Holds(cfg, Step(cfg, st, ref).value, ref)
  {
    var a := Locate(cfg, ref);
    var o := SetAccess(cfg, SetWindow(cfg, st.slots, a.index), a.tag);
    StepWindows(cfg, st, ref, a.index);
    assert o.view.valid[o.way] && o.view.tags[o.way] == a.tag;
  }

  /** An access changes only the slots of its own set. */
  lemma StepOnlyTouchesItsSet(cfg: Config, st: CacheState, ref: int, i: nat)
    requires ConfigOk(cfg) && StateShaped(cfg, st) && Step(cfg, st, ref).Ok?
    requires i < cfg.partitions
    requires var k := Locate(cfg, ref).index; i < k * cfg.ways || k * cfg.ways + cfg.ways <= i
    ensures var next := Step(cfg, st, ref).value.slots;
      next.valid[i] == st.slots.valid[i] && next.tags[i] == st.slots.tags[i] && next.usecount[i] == st.slots.usecount[i]
      && next.lasttime[i] == st.slots.lasttime[i] && next.firsttime[i] == st.slots.firsttime[i]
  {
  }

  /** Whether a block is held in another set is not changed by an access. */
  lemma StepKeepsOtherSets(cfg: Config, st: CacheState, ref: int, other: int)
    requires ConfigOk(cfg) && StateShaped(cfg, st) && Step(cfg, st, ref).Ok?
    requires Locate(cfg, other).index != Locate(cfg, ref).index
    ensures Holds(cfg, Step(cfg, st, ref).value, other) <==> Holds(cfg, st, other)
  {
    StepWindows(cfg, st, ref, Locate(cfg, other).index);
  }

  /** Accessing the same address twice in a row hits the second time, whatever the associativity. */
  lemma RepeatHits(cfg: Config, st: CacheState, ref: int)
    requires ConfigOk(cfg) && StateShaped(cfg, st) && Inv(cfg, st) && Step(cfg, st, ref).Ok?
    ensures var next := Step(cfg, st, ref).value;
      Step(cfg, next, ref).Ok? && Step(cfg, next, ref).value.hits == next.hits + 1
  {
    var next := Step(cfg, st, ref).value;
    StepInv(cfg, st, ref);
    StepHolds(cfg, st, ref);
    StepHitIffHeld(cfg, next, ref);
  }

  // ---------------------------------------------------------------- a worked example

  /** Nothing is held in a cache with no valid slot, such as the one `reset` leaves. */
  lemma NothingValidHoldsNothing(cfg: Config, st: CacheState, ref: int)
    requires ConfigOk(cfg) && StateShaped(cfg, st) && cfg.partitionSize != 0 && cfg.sets > 0
    requires forall i :: 0 <= i < cfg.partitions ==> !st.slots.valid[i]
    ensures !Holds(cfg, st, ref)
  {
    var a := Locate(cfg, ref);
    var start := SetStart(cfg, a.index);
    var v := SetWindow(cfg, st.slots, a.index);
    assert v.valid == st.slots.valid[start..start + cfg.ways];
    forall i | 0 <= i < cfg.ways
      ensures !v.valid[i]
    {
      assert v.valid[i] == st.slots.valid[start + i];
    }
  }

  /** From the empty cache, three references in three different sets miss, and the first again hits. */
  lemma ThreeSetsThenRepeat(cfg: Config, r0: int, r1: int, r2: int)
    requires ConfigOk(cfg) && cfg.partitionSize != 0 && cfg.sets > 0
    requires Locate(cfg, r0).index != Locate(cfg, r1).index
    requires Locate(cfg, r0).index != Locate(cfg, r2).index
    requires Locate(cfg, r1).index != Locate(cfg, r2).index
    ensures var r := RunAll(cfg, Initial(cfg), [r0, r1, r2, r0]);
      r.outcome == Pass && r.state.hits == 1 && r.state.misses == 3
  {
    var s0 := Initial(cfg);
    InitialInv(cfg);
    NothingValidHoldsNothing(cfg, s0, r0);
    NothingValidHoldsNothing(cfg, s0, r1);
    NothingValidHoldsNothing(cfg, s0, r2);
    StepHitIffHeld(cfg, s0, r0);
    var s1 := Step(cfg, s0, r0).value;
    StepInv(cfg, s0, r0);
    StepHolds(cfg, s0, r0);
    StepKeepsOtherSets(cfg, s0, r0, r1);
    StepKeepsOtherSets(cfg, s0, r0, r2);
    StepHitIffHeld(cfg, s1, r1);
    var s2 := Step(cfg, s1, r1).value;
    StepInv(cfg, s1, r1);
    StepKeepsOtherSets(cfg, s1, r1, r0);
    StepKeepsOtherSets(cfg, s1, r1, r2);
    StepHitIffHeld(cfg, s2, r2);
    var s3 := Step(cfg, s2, r2).value;
    StepInv(cfg, s2, r2);
    StepKeepsOtherSets(cfg, s2, r2, r0);
    StepHitIffHeld(cfg, s3, r0);
    var s4 := Step(cfg, s3, r0).value;
    assert [r0, r1, r2, r0][1..] == [r1, r2, r0] && [r1, r2, r0][1..] == [r2, r0] && [r2, r0][1..] == [r0];
    assert RunAll(cfg, s3, [r0]) == RunAll(cfg, s4, []);
    assert RunAll(cfg, s2, [r2, r0]) == RunAll(cfg, s3, [r0]);
    assert RunAll(cfg, s1, [r1, r2, r0]) == RunAll(cfg, s2, [r2, r0]);
    assert RunAll(cfg, s0, [r0, r1, r2, r0]) == RunAll(cfg, s1, [r1, r2, r0]);
  }

  /** `Cache(4, 8, 2, 'lru')` on references 0, 4, 8, 0: blocks 0, 1, 2, 0 fall in sets 0, 1, 2, 0, so miss, miss, miss, hit. */
  lemma LruExample(cfg: Config)
    requires MakeConfig(4, 8, 2, Some("lru")) == Ok(cfg)
    ensures var r := RunAll(cfg, Initial(cfg), [0, 4, 8, 0]);
      r.outcome == Pass && r.state.hits == 1 && r.state.misses == 3
  {
    ExampleConfig(cfg);
    ExampleSets(cfg);
    ThreeSetsThenRepeat(cfg, 0, 4, 8);
  }

  /** `Cache(4, 8, 2, 'lru')` has four sets of two ways, replaced by LRU. */
  lemma ExampleConfig(cfg: Config)
    requires MakeConfig(4, 8, 2, Some("lru")) == Ok(cfg)
    ensures cfg == Config(4, 8, 2, 4, Some(Lru))
  {
  }

  /** With words 0-3, 4-7 and 8-11 in blocks 0, 1 and 2, references 0, 4 and 8 fall in sets 0, 1 and 2. */
  lemma ExampleSets(cfg: Config)
    requires cfg == Config(4, 8, 2, 4, Some(Lru))
    ensures Locate(cfg, 0).index == 0 && Locate(cfg, 4).index == 1 && Locate(cfg, 8).index == 2
  {
    FloorDivUnique(0, 4, 0);
    FloorDivUnique(4, 4, 1);
    FloorDivUnique(8, 4, 2);
  }

  // ---------------------------------------------------------------- access_all on a string

  /** `[int(p.strip()) for p in pieces]` (or `int(p)`, which strips anyway): `ValueError` at the first piece that is not a number. */
  function ParseAll(pieces: seq<string>): (r: Result<seq<int>>)
    ensures r.Ok? ==> |r.value| == |pieces|
    ensures r.Err? ==> r.error == ValueError
  {
    Collect(seq(|pieces|, i requires 0 <= i < |pieces| => ParseInt(pieces[i])))
  }

  /** The values of a list of results, or the first error among them. */
  function Collect(rs: seq<Result<int>>): (r: Result<seq<int>>)
    ensures r.Ok? ==> |r.value| == |rs|
    ensures r.Err? ==> exists k :: 0 <= k < |rs| && rs[k] == Err(r.error)
  {
    if rs == [] then Ok([])
    else
      match rs[0] {
        case Err(e) => Err(e)
        case Ok(x) =>
          match Collect(rs[1..]) {
            case Err(e) =>
              assert exists k :: 0 <= k < |rs[1..]| && rs[1..][k] == Err(e);
              var k :| 0 <= k < |rs[1..]| && rs[1..][k] == Err(e);
              assert rs[k + 1] == Err(e);
              Err(e)
            case Ok(xs) => Ok([x] + xs)
          }
      }
  }

  /** The results collect exactly when each is `Ok`, and then into their values in order. */
  lemma {:induction false} CollectSpec(rs: seq<Result<int>>)
    ensures Collect(rs).Ok? <==> forall i :: 0 <= i < |rs| ==> rs[i].Ok?
    ensures Collect(rs).Ok? ==> forall i :: 0 <= i < |rs| ==> rs[i] == Ok(Collect(rs).value[i])
  {
    if rs != [] {
      var rest := rs[1..];
      CollectSpec(rest);
      if rs[0].Ok? && Collect(rest).Err? {
        var k :| 0 <= k < |rest| && rest[k].Err?;
        assert rs[k + 1] == rest[k];
      } else if rs[0].Ok? {
        var xs := [rs[0].value] + Collect(rest).value;
        forall i | 0 <= i < |rs| ensures rs[i] == Ok(xs[i]) {
          if i > 0 {
            assert rs[i] == rest[i - 1] && xs[i] == Collect(rest).value[i - 1];
          }
        }
      }
    }
  }

  /** The list parses exactly when every piece does, and then holds each piece's number in order. */
  lemma ParseAllSpec(pieces: seq<string>)
    ensures ParseAll(pieces).Ok? <==> forall i :: 0 <= i < |pieces| ==> ParseInt(pieces[i]).Ok?
    ensures ParseAll(pieces).Ok? ==> forall i :: 0 <= i < |pieces| ==> ParseInt(pieces[i]) == Ok(ParseAll(pieces).value[i])
  {
    var rs := seq(|pieces|, i requires 0 <= i < |pieces| => ParseInt(pieces[i]));
    assert ParseAll(pieces) == Collect(rs);
    CollectParsed(ParseInt, pieces, rs);
  }

  /** `CollectSpec` for results that parse pieces one by one. */
  lemma CollectParsed(parse: string -> Result<int>, pieces: seq<string>, rs: seq<Result<int>>)
    requires |rs| == |pieces| && forall i :: 0 <= i < |pieces| ==> rs[i] == parse(pieces[i])
    ensures Collect(rs).Ok? <==> forall i :: 0 <= i < |pieces| ==> parse(pieces[i]).Ok?
    ensures Collect(rs).Ok? ==> forall i :: 0 <= i < |pieces| ==> parse(pieces[i]) == Ok(Collect(rs).value[i])
  {
    CollectSpec(rs);
  }

  /** The pieces `access_all` reads from a string: split on ',' if there is one, else on ';', else on white space. */
  function RefPieces(text: string): (pieces: seq<string>)
  {
    if ',' in text then Split(text, ',')
    else if ';' in text then Split(text, ';')
    else SplitWhitespace(text)
  }

  /** The references `access_all` reads from a string. */
  function ParseRefs(text: string): (r: Result<seq<int>>)
    ensures r.Ok? ==> |r.value| == |RefPieces(text)|
    ensures r.Err? ==> r.error == ValueError
  {
    ParseAll(RefPieces(text))
  }

  /** The decimal renderings of `refs`, which hold no separator. */
  function Rendered(refs: seq<int>): (r: seq<string>)
    ensures |r| == |refs| && forall i :: 0 <= i < |refs| ==> r[i] == IntToString(refs[i])
  {
    if refs == [] then [] else [IntToString(refs[0])] + Rendered(refs[1..])
  }

  /** A decimal rendering holds digits and possibly a minus sign, so no comma. */
  lemma IntToStringChars(i: int)
    ensures ',' !in IntToString(i)
  {
    var s := IntToString(i);
    var t := NatToString(if i < 0 then -i else i);
    assert s == (if i < 0 then "-" else "") + t;
    forall k | 0 <= k < |s|
      ensures s[k] != ','
    {
      if i < 0 && k > 0 {
        assert s[k] == t[k - 1];
      }
    }
  }

  /** Writing two or more references as `'a,b,...'` and reading them back with `access_all`'s parser gives them back. */
  lemma ParseRefsOfJoin(refs: seq<int>)
    requires |refs| >= 2
    ensures ParseRefs(Join(",", Rendered(refs))) == Ok(refs)
  {
    var parts := Rendered(refs);
    forall i | 0 <= i < |parts|
      ensures ',' !in parts[i] && ParseInt(parts[i]) == Ok(refs[i])
    {
      IntToStringChars(refs[i]);
      ParseIntOfIntToString(refs[i]);
    }
    JoinHasSep(parts);
    SplitJoin(parts, ',');
    ParseAllOf(parts, refs);
  }

  lemma ParseAllOf(pieces: seq<string>, xs: seq<int>)
    requires |pieces| == |xs| && forall i :: 0 <= i < |pieces| ==> ParseInt(pieces[i]) == Ok(xs[i])
    ensures ParseAll(pieces) == Ok(xs)
  {
    ParseAllSpec(pieces);
    assert ParseAll(pieces).value == xs;
  }

  /** A join of two or more pieces holds its separator. */
  lemma JoinHasSep(parts: seq<string>)
    requires |parts| >= 2
    ensures ',' in Join(",", parts)
  {
    var j := Join(",", parts);
    assert j == parts[0] + "," + Join(",", parts[1..]);
    assert j[|parts[0]|] == ',';
  }

  /** `access_all(text)`: nothing is accessed when a piece is not a number. */
  function RunText(cfg: Config, st: CacheState, text: string): (r: Run)
    requires ConfigOk(cfg) && StateShaped(cfg, st)
    ensures ParseRefs(text).Err? ==> r == Run(st, Fail(ValueError))
    ensures ParseRefs(text).Ok? ==> r == RunAll(cfg, st, ParseRefs(text).value)
  {
    match ParseRefs(text) {
      case Err(e) => Run(st, Fail(e))
      case Ok(refs) => RunAll(cfg, st, refs)
    }
  }

  // ---------------------------------------------------------------- content_of

  function Pow2(b: nat): (p: nat)
    ensures p >= 1
  {
    if b == 0 then 1 else 2 * Pow2(b - 1)
  }

  /** `n.bit_length()`: the number of binary digits of `n`. */
  function BitLength(n: nat): (b: nat)
    ensures n < Pow2(b)
    ensures n == 0 ==> b == 0
    ensures n > 0 ==> b >= 1 && Pow2(b - 1) <= n
  {
    if n == 0 then 0 else 1 + BitLength(n / 2)
  }

  /**
   * The block `content_of` reports for a valid slot: `(tag << s.bit_length()) | s`
   * with `s = slot // ways`. Since `0 <= s < 2^bit_length(s)` and the shift
   * leaves the low bits of `tag` zero, the `|` adds `s`.
   */
  function ReportedBlock(cfg: Config, tag: int, slot: nat): int
    requires cfg.ways >= 1
  {
    var s := slot / cfg.ways;
    tag * Pow2(BitLength(s)) + s
  }

  /** `'{}-{}'.format(start, start + size - 1)`. */
  function RangeText(start: int, size: int): string
  {
    IntToString(start) + "-" + IntToString(start + size - 1)
  }

  /** `content_of(slot)` as written: '' for an invalid slot, otherwise the words of the reported block. */
  function ContentOf(cfg: Config, st: CacheState, slot: nat): (r: Result<string>)
    requires ConfigOk(cfg) && StateShaped(cfg, st)
    ensures r.Err? <==> slot >= cfg.partitions
    ensures r.Err? ==> r.error == IndexError
    ensures r.Ok? ==> (r.value == "" <==> !st.slots.valid[slot])
    ensures r.Ok? && st.slots.valid[slot] ==>
      r.value == RangeText(ReportedBlock(cfg, st.slots.tags[slot], slot) * cfg.partitionSize, cfg.partitionSize)
  {
    if slot >= cfg.partitions then Err(IndexError)
    else if !st.slots.valid[slot] then Ok("")
    else Ok(RangeText(ReportedBlock(cfg, st.slots.tags[slot], slot) * cfg.partitionSize, cfg.partitionSize))
  }

  /** The block a valid slot actually holds: the inverse of `tag, set = divmod(block, sets)`. */
  function HeldBlock(cfg: Config, tag: int, slot: nat): int
    requires cfg.ways >= 1
  {
    tag * cfg.sets + slot / cfg.ways
  }

  /** `content_of` as evidently intended: the words of the block the slot holds. */
  function IntendedContentOf(cfg: Config, st: CacheState, slot: nat): (r: Result<string>)
    requires ConfigOk(cfg) && StateShaped(cfg, st)
    ensures r.Err? <==> slot >= cfg.partitions
    ensures r.Ok? ==> (r.value == "" <==> !st.slots.valid[slot])
    ensures r.Ok? && st.slots.valid[slot] ==>
      r.value == RangeText(HeldBlock(cfg, st.slots.tags[slot], slot) * cfg.partitionSize, cfg.partitionSize)
  {
    if slot >= cfg.partitions then Err(IndexError)
    else if !st.slots.valid[slot] then Ok("")
    else Ok(RangeText(HeldBlock(cfg, st.slots.tags[slot], slot) * cfg.partitionSize, cfg.partitionSize))
  }

  /** Slot `i` of set `k` is slot `k*ways + i` of the cache, and `slot // ways` gives `k` back. */
  lemma SlotInSet(cfg: Config, k: nat, i: nat)
    requires ConfigOk(cfg) && k < cfg.sets && i < cfg.ways
    ensures (SetStart(cfg, k) + i) / cfg.ways == k
  {
    var slot := SetStart(cfg, k) + i;
    assert cfg.ways * k == slot - i;
    FloorDivUnique(slot, cfg.ways, k);
    FloorDivPositive(slot, cfg.ways);
  }

  /**
   * After an access, some valid slot of its set holds the accessed block, and
   * the intended `content_of` of that slot names the words of that block, `ref` among them.
   */
  lemma IntendedContentOfAccess(cfg: Config, st: CacheState, ref: int)
    requires ConfigOk(cfg) && StateShaped(cfg, st) && Step(cfg, st, ref).Ok?
    ensures var next := Step(cfg, st, ref).value; var a := Locate(cfg, ref);
      exists slot: nat :: slot < cfg.partitions && next.slots.valid[slot]
        && HeldBlock(cfg, next.slots.tags[slot], slot) == a.block
        && IntendedContentOf(cfg, next, slot) == Ok(RangeText(a.block * cfg.partitionSize, cfg.partitionSize))
  {
    var next := Step(cfg, st, ref).value;
    var a := Locate(cfg, ref);
    StepHolds(cfg, st, ref);
    HeldInSet(cfg, next, a.index, a.tag, a.block);
  }

  /** A set holding `tag` has a slot whose intended `content_of` names block `tag*sets + k`. */
  lemma HeldInSet(cfg: Config, st: CacheState, k: nat, tag: int, block: int)
    requires ConfigOk(cfg) && StateShaped(cfg, st) && k < cfg.sets && block == tag * cfg.sets + k
    requires var v := SetWindow(cfg, st.slots, k); exists i :: 0 <= i < cfg.ways && v.valid[i] && v.tags[i] == tag
    ensures exists slot: nat ::
      slot < cfg.partitions && st.slots.valid[slot]
      && HeldBlock(cfg, st.slots.tags[slot], slot) == block
      && IntendedContentOf(cfg, st, slot) == Ok(RangeText(block * cfg.partitionSize, cfg.partitionSize))
  {
    var v := SetWindow(cfg, st.slots, k);
    var i :| 0 <= i < cfg.ways && v.valid[i] && v.tags[i] == tag;
    var slot: nat := SetStart(cfg, k) + i;
    assert slot < cfg.partitions && st.slots.valid[slot] && st.slots.tags[slot] == tag by {
      assert v.valid[i] == st.slots.valid[slot] && v.tags[i] == st.slots.tags[slot];
    }
    assert HeldBlock(cfg, tag, slot) == block by {
      SlotInSet(cfg, k, i);
    }
    assert IntendedContentOf(cfg, st, slot) == Ok(RangeText(block * cfg.partitionSize, cfg.partitionSize));
  }

  /**
   * The reported block is wrong: in `Cache(4, 8, 2, 'lru')`, reference 16 is
   * block 4 (tag 1, set 0) and lands in slot 0, but `content_of(0)` reports
   * block 1, words 4-7, instead of words 16-19.
   */
  lemma ContentOfMisreports(cfg: Config, st: CacheState)
    requires MakeConfig(4, 8, 2, Some("lru")) == Ok(cfg)
    requires Step(cfg, Initial(cfg), 16) == Ok(st)
    ensures Locate(cfg, 16).block == 4
    ensures ContentOf(cfg, st, 0) == Ok("4-7")
    ensures IntendedContentOf(cfg, st, 0) == Ok("16-19")
  {
    ExampleConfig(cfg);
    ExampleLocate(cfg);
    FirstAccessFillsFirstWay(cfg, 16, st);
    ExampleContents(cfg, st);
  }

  /** In `Cache(4, 8, 2, ...)` reference 16 is block 4: tag 1 in set 0, whose first slot is 0. */
  lemma ExampleLocate(cfg: Config)
    requires cfg == Config(4, 8, 2, 4, Some(Lru))
    ensures Locate(cfg, 16) == Address(4, 0, 1, 0) && SetStart(cfg, 0) == 0
  {
    FloorDivUnique(16, 4, 4);
  }

  /** What both versions of `content_of` say of a slot 0 holding tag 1 in `Cache(4, 8, 2, ...)`. */
  lemma ExampleContents(cfg: Config, st: CacheState)
    requires cfg == Config(4, 8, 2, 4, Some(Lru))
    requires StateShaped(cfg, st) && st.slots.valid[0] && st.slots.tags[0] == 1
    ensures ContentOf(cfg, st, 0) == Ok("4-7")
    ensures IntendedContentOf(cfg, st, 0) == Ok("16-19")
  {
    RangeTextsOfExample();
    assert ContentOf(cfg, st, 0) == Ok("4-7") by {
      assert BitLength(0) == 0;
      assert ReportedBlock(cfg, 1, 0) == 1;
    }
    assert IntendedContentOf(cfg, st, 0) == Ok("16-19") by {
      assert HeldBlock(cfg, 1, 0) == 4;
    }
  }

  /** The first access after `reset` puts its tag in the first slot of its set. */
  lemma FirstAccessFillsFirstWay(cfg: Config, ref: int, st: CacheState)
    requires ConfigOk(cfg) && Step(cfg, Initial(cfg), ref) == Ok(st)
    ensures StateShaped(cfg, st)
    ensures st.slots.valid[SetStart(cfg, Locate(cfg, ref).index)]
    ensures st.slots.tags[SetStart(cfg, Locate(cfg, ref).index)] == Locate(cfg, ref).tag
  {
    var s0 := Initial(cfg);
    var k := Locate(cfg, ref).index;
    InitialInv(cfg);
    var start := SetStart(cfg, k);
    assert SetWindow(cfg, s0.slots, k).valid[0] == s0.slots.valid[start];
    FillsFirstWayOfEmptySet(cfg, s0, ref, st);
  }

  /** A miss on an empty set puts the tag in the set's first slot. */
  lemma FillsFirstWayOfEmptySet(cfg: Config, st: CacheState, ref: int, next: CacheState)
    requires ConfigOk(cfg) && StateShaped(cfg, st) && Step(cfg, st, ref) == Ok(next)
    requires SetInvAt(cfg, st.slots, Locate(cfg, ref).index)
    requires !SetWindow(cfg, st.slots, Locate(cfg, ref).index).valid[0]
    ensures StateShaped(cfg, next)
    ensures next.slots.valid[SetStart(cfg, Locate(cfg, ref).index)]
    ensures next.slots.tags[SetStart(cfg, Locate(cfg, ref).index)] == Locate(cfg, ref).tag
  {
    var a := Locate(cfg, ref);
    var v := SetWindow(cfg, st.slots, a.index);
    EmptySetFillsFirstWay(cfg, v, a.tag);
    var o := SetAccess(cfg, v, a.tag);
    StepWindows(cfg, st, ref, a.index);
    var w := SetWindow(cfg, next.slots, a.index);
    assert w == o.view;
    assert w.valid[0] && w.tags[0] == a.tag;
  }

  /** An access to a set whose first way is invalid (so, by the invariant, an empty set) misses and fills way 0. */
  lemma EmptySetFillsFirstWay(cfg: Config, v: Slots, tag: int)
    requires WaysOk(cfg) && Shaped(v, cfg.ways) && SetInv(v) && !v.valid[0]
    ensures !SetAccess(cfg, v, tag).hit && SetAccess(cfg, v, tag).way == 0
  {
    var a := Aged(v);
    AgedInv(v);
    assert a.valid == v.valid && a.tags == v.tags;
    assert forall i :: 0 <= i < cfg.ways ==> !v.valid[i];
    VictimIsFirstInvalid(cfg, a, 0);
  }

  lemma RangeTextsOfExample()
    ensures RangeText(4, 4) == "4-7" && RangeText(16, 4) == "16-19"
  {
    assert NatToString(1) == "1";
  }
}
