/** What the component loader finds: names, the directories they resolve to, and their dependencies. */
module ComponentTree {
  import opened Orders

  /**
   * `resolve` says which directory a dependency name is found in; `deps` has the directories with a
   * script, and what each script's component depends on. A self-built component has no dependencies.
   */
  datatype Tree = Tree(resolve: map<string, string>, deps: map<string, seq<string>>, selfBuilt: set<string>) {
    predicate Exists(name: string) { name in resolve && resolve[name] in deps }

    function Deps(dir: string): seq<string> {
      if dir in deps && dir !in selfBuilt then deps[dir] else []
    }

    /** Every name that is found at all is found under itself. */
    ghost predicate Canonical() { forall name :: name in resolve ==> resolve[name] == name }

    /** A directory that exists is found under itself (lines 363-364). */
    ghost predicate Rooted() {
      forall name :: name in resolve ==> resolve[name] in resolve && resolve[resolve[name]] == resolve[name]
    }

    /** A name that is found elsewhere than under itself. */
    predicate Alias(name: string) { name in resolve && resolve[name] != name }

    ghost function Aliases(): set<string> { set name | name in resolve && resolve[name] != name }

    // -------------------------------------------------------------- aliases that lead to each other

    /** Aliases that lead from one to another without end. */
    ghost predicate Trap(a: set<string>) {
      forall x :: x in a ==> Exists(x) && Alias(x) && Needs(x, a)
    }

    /** `x`, an alias, needs one of `a`. */
    ghost predicate Needs(x: string, a: set<string>)
      requires x in resolve
    {
      exists y :: y in Deps(resolve[x]) && y in a
    }

    ghost predicate Trapped(name: string) { exists a :: Trap(a) && name in a }

    lemma TrapNeeds(a: set<string>, name: string)
      requires Trap(a) && name in a
      ensures Exists(name) && Alias(name) && Needs(name, a)
    {
    }

    lemma NeedsItself(name: string)
      requires Exists(name) && Alias(name) && name in Deps(resolve[name])
      ensures Trapped(name)
    {
      assert Trap({name});
    }

    /** What is trapped needs something trapped. */
    lemma TrappedNeeds(name: string)
      requires Trapped(name)
      ensures Exists(name) && Alias(name) && exists y :: y in Deps(resolve[name]) && Trapped(y)
    {
      hide Trap, Deps, Alias, Exists;
      var a :| Trap(a) && name in a;
      TrapNeeds(a, name);
      var y :| y in Deps(resolve[name]) && y in a;
    }

    lemma CanonicalHasNoTraps()
      requires Canonical()
      ensures Aliases() == {} && forall name :: !Trapped(name)
    {
      assert forall a :: Trap(a) ==> a == {};
    }

    /** The name at `i` exists, and is a dependency of the one before. */
    ghost predicate Link(p: seq<string>, i: nat)
      requires i < |p|
    {
      Exists(p[i]) && (i > 0 ==> Exists(p[i - 1]) && p[i] in Deps(resolve[p[i - 1]]))
    }

    /** `trail` is a chain of different aliases, each needed by the one before, that leads to `name`. */
    ghost predicate TrailTo(trail: seq<string>, name: string) {
      && Distinct(trail)
      && (forall i {:trigger Link(trail, i)} :: 0 <= i < |trail| ==> Link(trail, i) && Alias(trail[i]))
      && (trail != [] ==> Exists(trail[|trail| - 1]) && name in Deps(resolve[trail[|trail| - 1]]))
    }

    lemma TrailStep(trail: seq<string>, name: string, i: nat)
      requires TrailTo(trail, name) && i < |trail|
      ensures Exists(trail[i]) && Alias(trail[i])
      ensures (if i + 1 < |trail| then trail[i + 1] else name) in Deps(resolve[trail[i]])
    {
      hide Deps, Distinct;
      assert Link(trail, i);
      if i + 1 < |trail| {
        assert Link(trail, i + 1);
      }
    }

    /** A trail that comes back to itself is a trap. */
    lemma TrailTraps(trail: seq<string>, name: string)
      requires TrailTo(trail, name) && name in trail
      ensures Trapped(name)
    {
      hide TrailTo, Deps, Members, Trap, Needs;
      var j :| 0 <= j < |trail| && trail[j] == name;
      var loop := trail[j..];
      forall i | 0 <= i < |loop| ensures Exists(loop[i]) && Alias(loop[i]) && Needs(loop[i], Members(loop)) {
        TrailStep(trail, name, j + i);
        InMembers(loop, if i + 1 < |loop| then i + 1 else 0);
        NeedsOne(loop[i], if i + 1 < |loop| then loop[i + 1] else name, Members(loop));
      }
      LoopTraps(loop);
      InMembers(loop, 0);
    }

    lemma NeedsOne(x: string, y: string, a: set<string>)
      requires Alias(x) && y in Deps(resolve[x]) && y in a
      ensures Needs(x, a)
    {
    }

    lemma LoopTraps(loop: seq<string>)
      requires forall i {:trigger loop[i]} :: 0 <= i < |loop| ==>
                 Exists(loop[i]) && Alias(loop[i]) && Needs(loop[i], Members(loop))
      ensures Trap(Members(loop))
    {
      hide Deps, Alias;
      forall x | x in Members(loop) ensures Exists(x) && Alias(x) && Needs(x, Members(loop)) {
        var i :| 0 <= i < |loop| && loop[i] == x;
      }
    }

    lemma NoTrail(name: string)
      ensures TrailTo([], name)
    {
    }

    lemma TrailMore(trail: seq<string>, name: string, next: string)
      requires TrailTo(trail, name) && name !in trail && Exists(name) && Alias(name) && next in Deps(resolve[name])
      ensures TrailTo(trail + [name], next)
    {
      hide Deps, Exists, Alias, Distinct;
      var more := trail + [name];
      DistinctMore(trail, name);
      forall i {:trigger Link(more, i)} | 0 <= i < |more| ensures Link(more, i) && Alias(more[i]) {
        if i < |trail| {
          assert Link(trail, i);
        }
      }
    }

    lemma TrailFits(trail: seq<string>, name: string)
      requires TrailTo(trail, name)
      ensures |trail| <= |Aliases()|
    {
      assert forall i :: 0 <= i < |trail| && Link(trail, i) ==> trail[i] in Aliases();
      assert Members(trail) <= Aliases();
      DistinctFits(trail, Aliases());
    }

    // -------------------------------------------------------------- chains of dependencies

    /** Names that exist, each a dependency of the one before. */
    ghost predicate Chain(p: seq<string>) {
      p != [] && forall i {:trigger Link(p, i)} :: 0 <= i < |p| ==> Link(p, i)
    }

    /** Such a chain from `from` to `to`. */
    ghost predicate Path(p: seq<string>, from: string, to: string) {
      Chain(p) && p[0] == from && p[|p| - 1] == to
    }

    lemma PathEnds(p: seq<string>, from: string, to: string)
      requires Path(p, from, to)
      ensures p != [] && p[0] == from && p[|p| - 1] == to && Exists(from) && Exists(to)
    {
      assert Link(p, 0) && Link(p, |p| - 1);
    }

    lemma PathOne(name: string)
      requires Exists(name)
      ensures Path([name], name, name)
    {
    }

    lemma PathOn(p: seq<string>, from: string, to: string, y: string)
      requires Path(p, from, to) && Exists(y) && Exists(to) && y in Deps(resolve[to])
      ensures Path(p + [y], from, y)
    {
      hide Deps, Exists;
      var q := p + [y];
      forall i {:trigger Link(q, i)} | 0 <= i < |q| ensures Link(q, i) {
        if i < |p| {
          assert Link(p, i);
        }
      }
    }

    lemma PathBefore(x: string, p: seq<string>, from: string, to: string)
      requires Path(p, from, to) && Exists(x) && from in Deps(resolve[x])
      ensures Path([x] + p, x, to)
    {
      hide Deps, Exists;
      var q := [x] + p;
      forall i {:trigger Link(q, i)} | 0 <= i < |q| ensures Link(q, i) {
        if i > 0 {
          assert Link(p, i - 1);
        }
      }
    }

    /** Directory `d` is found where a chain from `root` ends. */
    ghost predicate Reaches(root: string, d: string) { exists p, to :: Path(p, root, to) && Finds(to, d) }

    predicate Finds(name: string, d: string) { Exists(name) && resolve[name] == d }

    /** A chain from `root` ends in a trap. */
    ghost predicate TrapAhead(root: string) { exists p, to :: Path(p, root, to) && Trapped(to) }

    /** The directories of `s` need nothing that exists outside of `s`. */
    ghost predicate Closed(s: set<string>) {
      forall d {:trigger Satisfied(d, s)} :: d in s ==> Satisfied(d, s)
    }

    ghost predicate Satisfied(d: string, s: set<string>) {
      forall y :: y in Deps(d) && Exists(y) ==> resolve[y] in s
    }

    /** Nor do they need anything trapped. */
    ghost predicate Clean(s: set<string>) { forall d :: d in s ==> Untrapped(d) }

    ghost predicate Untrapped(d: string) { forall y :: y in Deps(d) ==> !Trapped(y) }

    lemma {:induction false} ChainInside(p: seq<string>, s: set<string>, i: nat)
      requires Chain(p) && Closed(s) && Exists(p[0]) && resolve[p[0]] in s && i < |p|
      ensures Exists(p[i]) && resolve[p[i]] in s
    {
      hide Deps;
      if i > 0 {
        assert Link(p, i);
        ChainInside(p, s, i - 1);
        assert Satisfied(resolve[p[i - 1]], s);
      }
    }

    /** From a clean closed set no chain leads into a trap. */
    lemma NoTrapFromClean(p: seq<string>, from: string, to: string, s: set<string>)
      requires Path(p, from, to) && Closed(s) && Clean(s) && Exists(from) && resolve[from] in s
      ensures !Trapped(to)
    {
      hide Trapped, Deps, Closed;
      var n := |p| - 1;
      if n > 0 {
        assert Link(p, n);
        ChainInside(p, s, n - 1);
        assert Untrapped(resolve[p[n - 1]]);
      } else if Trapped(to) {
        TrappedNeeds(to);
        assert false;
      }
    }

    ghost function Reached(a: string, b: string): set<string> {
      set d | d in deps && (Reaches(a, d) || Reaches(b, d))
    }

    lemma ReachesOn(root: string, d: string, y: string)
      requires Reaches(root, d) && y in Deps(d)
      ensures Exists(y) ==> Reaches(root, resolve[y])
      ensures Trapped(y) ==> TrapAhead(root)
    {
      hide Deps, Path, Trapped;
      var p, to :| Path(p, root, to) && Finds(to, d);
      if Trapped(y) {
        TrappedNeeds(y);
      }
      if Exists(y) {
        PathOn(p, root, to, y);
        assert Finds(y, resolve[y]);
      }
    }

    /** Whatever can be reached is a closed set, and a clean one if no trap can be reached. */
    lemma ReachedClosed(a: string, b: string)
      ensures Closed(Reached(a, b))
      ensures !TrapAhead(a) && !TrapAhead(b) ==> Clean(Reached(a, b))
    {
      hide Deps, Reaches, TrapAhead, Trapped;
      forall d, y | d in Reached(a, b) && y in Deps(d)
        ensures Exists(y) ==> resolve[y] in Reached(a, b)
        ensures Trapped(y) ==> TrapAhead(a) || TrapAhead(b)
      {
        if Reaches(a, d) { ReachesOn(a, d, y); } else { ReachesOn(b, d, y); }
      }
      assert forall d :: d in Reached(a, b) ==> Satisfied(d, Reached(a, b));
    }

    lemma ReachesItself(name: string)
      requires Exists(name)
      ensures Reaches(name, resolve[name])
    {
      PathOne(name);
      assert Finds(name, resolve[name]);
    }

    lemma ReachesInside(root: string, d: string, s: set<string>)
      requires Reaches(root, d) && Closed(s) && Exists(root) && resolve[root] in s
      ensures d in s
    {
      hide Closed;
      var p, to :| Path(p, root, to) && Finds(to, d);
      ChainInside(p, s, |p| - 1);
    }

    // -------------------------------------------------------------- what the recursion runs into

    /**
     * A chain of dependencies leads from `name` into a trap without passing a loaded name, for the recursion
     * goes on from an alias whether it is loaded or not.
     */
    ghost predicate Doomed(name: string, loaded: set<string>) {
      exists p, to :: Path(p, name, to) && Trapped(to) && Passes(p, loaded)
    }

    ghost predicate Passes(p: seq<string>, loaded: set<string>) {
      forall i {:trigger p[i]} :: 0 <= i < |p| && p[i] in loaded ==> Alias(p[i])
    }

    lemma TrappedIsDoomed(name: string, loaded: set<string>)
      requires Trapped(name)
      ensures Doomed(name, loaded)
    {
      hide Trapped, Path;
      TrappedNeeds(name);
      PathOne(name);
      assert Passes([name], loaded);
    }

    lemma DoomedLess(name: string, less: set<string>, more: set<string>)
      requires Doomed(name, more) && less <= more
      ensures Doomed(name, less)
    {
      hide Path, Trapped;
      var p, to :| Path(p, name, to) && Trapped(to) && Passes(p, more);
      assert Passes(p, less);
    }

    lemma DoomedBefore(name: string, y: string, loaded: set<string>)
      requires Exists(name) && (Alias(name) || name !in loaded)
      requires y in Deps(resolve[name]) && Doomed(y, loaded)
      ensures Doomed(name, loaded)
    {
      hide Path, Trapped, Deps, Exists, Alias;
      var p, to :| Path(p, y, to) && Trapped(to) && Passes(p, loaded);
      PathBefore(name, p, y, to);
      var q := [name] + p;
      assert Passes(q, loaded) by {
        assert forall i {:trigger q[i]} :: 0 < i < |q| ==> q[i] == p[i - 1];
      }
    }

    /** Within a clean closed set nothing is doomed. */
    lemma CleanIsSafe(d: string, y: string, s: set<string>, loaded: set<string>)
      requires Closed(s) && Clean(s) && d in s && y in Deps(d)
      ensures !Doomed(y, loaded)
    {
      hide Path, Trapped, Deps, Clean, Closed;
      if Doomed(y, loaded) {
        var p, to :| Path(p, y, to) && Trapped(to) && Passes(p, loaded);
        PathEnds(p, y, to);
        SatisfiedBy(d, y, s);
        NoTrapFromClean(p, y, to, s);
      }
    }

    lemma SatisfiedBy(d: string, y: string, s: set<string>)
      requires Closed(s) && d in s && y in Deps(d) && Exists(y)
      ensures resolve[y] in s
    {
      assert Satisfied(d, s);
    }

    // -------------------------------------------------------------- how the list grows

    /** Between `was` and `now`, `y` was found loaded, or was loaded, or does not exist. */
    ghost predicate Fine(y: string, was: seq<string>, now: seq<string>)
      requires |was| <= |now|
    {
      !Trapped(y) && (Exists(y) ==> (y in was && !Alias(y)) || resolve[y] in now[|was|..])
    }

    ghost predicate AllFine(d: string, was: seq<string>, now: seq<string>)
      requires |was| <= |now|
    {
      forall y :: y in Deps(d) ==> Fine(y, was, now)
    }

    /** Whatever is new has had all its dependencies seen to. */
    ghost predicate Handled(was: seq<string>, now: seq<string>) {
      was <= now && forall d :: d in now[|was|..] ==> AllFine(d, was, now)
    }

    lemma FineMore(y: string, was: seq<string>, from: seq<string>, to: seq<string>, now: seq<string>)
      requires was <= from <= to <= now && Fine(y, from, to)
      ensures Fine(y, was, now)
    {
      hide Trapped;
      SliceMore(was, from, to, now);
      assert y in from ==> y in was || y in now[|was|..];
    }

    lemma SliceMore(was: seq<string>, from: seq<string>, to: seq<string>, now: seq<string>)
      requires was <= from <= to <= now
      ensures forall d :: d in to[|from|..] ==> d in now[|was|..]
      ensures forall d :: d in from ==> d in was || d in now[|was|..]
    {
      forall d | d in to[|from|..] ensures d in now[|was|..] {
        var i :| 0 <= i < |to[|from|..]| && to[|from|..][i] == d;
        assert now[|was|..][|from| - |was| + i] == d;
      }
      forall d | d in from ensures d in was || d in now[|was|..] {
        var i :| 0 <= i < |from| && from[i] == d;
        if i >= |was| {
          assert now[|was|..][i - |was|] == d;
        }
      }
    }

    lemma AllFineMore(d: string, was: seq<string>, from: seq<string>, to: seq<string>, now: seq<string>)
      requires was <= from <= to <= now && AllFine(d, from, to)
      ensures AllFine(d, was, now)
    {
      hide Deps, Fine;
      forall y | y in Deps(d) ensures Fine(y, was, now) {
        FineMore(y, was, from, to, now);
      }
    }

    lemma HandledNone(now: seq<string>)
      ensures Handled(now, now)
    {
      assert now[|now|..] == [];
    }

    lemma HandledMore(was: seq<string>, mid: seq<string>, now: seq<string>)
      requires Handled(was, mid) && Handled(mid, now)
      ensures Handled(was, now)
    {
      hide AllFine;
      forall d | d in now[|was|..] ensures AllFine(d, was, now) {
        NewIsEither(d, was, mid, now);
        if d in mid[|was|..] { AllFineMore(d, was, was, mid, now); } else { AllFineMore(d, was, mid, now, now); }
      }
    }

    lemma NewIsEither(d: string, was: seq<string>, mid: seq<string>, now: seq<string>)
      requires was <= mid <= now && d in now[|was|..]
      ensures d in mid[|was|..] || d in now[|mid|..]
    {
      assert now[|was|..] == mid[|was|..] + now[|mid|..];
    }

    /** A directory loaded, and then what it needs. */
    lemma HandledFirst(was: seq<string>, d: string, now: seq<string>)
      requires Handled(was + [d], now) && AllFine(d, was + [d], now)
      ensures Handled(was, now) && d in now[|was|..]
    {
      hide AllFine;
      var mid := was + [d];
      assert mid[|was|..] == [d];
      assert now[|was|..][0] == d;
      forall e | e in now[|was|..] ensures AllFine(e, was, now) {
        NewIsEither(e, was, mid, now);
        AllFineMore(e, was, mid, now, now);
      }
    }

    /** When the recursion from `name` ended well, `name` was not doomed. */
    lemma FineNotDoomed(name: string, was: seq<string>, now: seq<string>)
      requires Handled(was, now) && Fine(name, was, now)
      ensures !Doomed(name, Members(was))
    {
      hide Trapped, Handled, Passes, Members, Fine, Deps, Exists;
      if Doomed(name, Members(was)) {
        var p, to :| Path(p, name, to) && Trapped(to) && Passes(p, Members(was));
        Walk(p, was, now, |p| - 1);
      }
    }

    lemma {:induction false} Walk(p: seq<string>, was: seq<string>, now: seq<string>, i: nat)
      requires Chain(p) && Passes(p, Members(was)) && i < |p| && Handled(was, now) && Fine(p[0], was, now)
      ensures Exists(p[i]) && !Trapped(p[i]) && resolve[p[i]] in now[|was|..]
    {
      hide Trapped, Deps, Alias;
      assert Link(p, i);
      if i > 0 {
        Walk(p, was, now, i - 1);
        assert AllFine(resolve[p[i - 1]], was, now);
      }
      assert Fine(p[i], was, now);
    }

    /** What is new lies in every closed set with the old ones and `seeds`: it is needed. */
    ghost predicate Needed(was: seq<string>, now: seq<string>, seeds: set<string>) {
      forall s {:trigger Closed(s)} :: Closed(s) && seeds <= s && Members(was) <= s ==> Members(now) <= s
    }

    ghost function Seeds(name: string): set<string> { if Exists(name) then {resolve[name]} else {} }

    lemma NeededNone(now: seq<string>, seeds: set<string>)
      ensures Needed(now, now, seeds)
    {
    }

    lemma NeededOne(was: seq<string>, d: string)
      ensures Needed(was, was + [d], {d})
    {
      assert Members(was + [d]) == Members(was) + {d};
    }

    lemma NeededMore(was: seq<string>, mid: seq<string>, now: seq<string>, seeds: set<string>)
      requires Needed(was, mid, seeds) && Needed(mid, now, {})
      ensures Needed(was, now, seeds)
    {
    }

    /** A dependency of what is loaded is needed already. */
    lemma NeededDep(c: string, y: string, was: seq<string>, now: seq<string>)
      requires c in was && y in Deps(c) && Needed(was, now, Seeds(y))
      ensures Needed(was, now, {})
    {
      forall s {:trigger Closed(s)} | Closed(s) && Members(was) <= s ensures Members(now) <= s {
        assert c in Members(was) && Satisfied(c, s);
      }
    }

    lemma FineSatisfies(d: string, was: seq<string>, now: seq<string>)
      requires was <= now && AllFine(d, was, now)
      ensures Satisfied(d, Members(now)) && Untrapped(d)
    {
      hide Trapped, Deps;
      forall y | y in Deps(d) && Exists(y) ensures resolve[y] in Members(now) {
        assert Fine(y, was, now);
      }
    }

    // -------------------------------------------------------------- how often a component is loaded again

    /** No chain of aliases from `d` is longer than `k`. */
    ghost predicate Ends(d: string, k: nat)
      decreases k
    {
      forall y :: y in Deps(d) ==> EndsFor(y, k)
    }

    ghost predicate EndsFor(y: string, k: nat)
      decreases k, 0
    {
      Exists(y) && Alias(y) ==> k > 0 && Ends(resolve[y], k - 1)
    }

    /**
     * How many components the loop over them has yet to visit because of `d`, by `k` levels of aliases: each
     * alias adds its own again, first in the recursion and then once more when the loop gets to it.
     */
    ghost function Work(d: string, k: nat): nat
      decreases k, 0
    {
      if k == 0 then 0 else Sum(Deps(d), y => WorkFor(y, k - 1))
    }

    ghost function WorkFor(y: string, k: nat): nat
      decreases k, 1
    {
      if Exists(y) && Alias(y) then 1 + 2 * Work(resolve[y], k) else 0
    }

    lemma {:induction false} EndsMore(d: string, k: nat, j: nat)
      requires Ends(d, k) && k <= j
      ensures Ends(d, j) && Work(d, j) == Work(d, k)
      decreases k
    {
      hide Deps;
      forall y | y in Deps(d)
        ensures EndsFor(y, j)
        ensures j > 0 ==> WorkFor(y, j - 1) == if k == 0 then 0 else WorkFor(y, k - 1)
      {
        assert EndsFor(y, k);
        if Exists(y) && Alias(y) {
          EndsMore(resolve[y], k - 1, j - 1);
        }
      }
      if k > 0 {
        SumSame(Deps(d), y => WorkFor(y, j - 1), y => WorkFor(y, k - 1));
      } else if j > 0 {
        SumZero(Deps(d), y => WorkFor(y, j - 1));
      }
    }

    /** The same, by as many levels as it takes. */
    ghost function Load(d: string): nat {
      if exists k: nat :: Ends(d, k) then var k: nat :| Ends(d, k); Work(d, k) else 0
    }

    ghost function LoadFor(y: string): nat { if Exists(y) && Alias(y) then 1 + 2 * Load(resolve[y]) else 0 }

    ghost function LoadOf(ds: seq<string>): nat { Sum(ds, y => LoadFor(y)) }

    /** What the loop has yet to do for these components. */
    ghost function Cost(entries: seq<string>): nat { Sum(entries, d => 1 + Load(d)) }

    lemma LoadIs(d: string, k: nat)
      requires Ends(d, k)
      ensures Load(d) == Work(d, k)
    {
      hide Ends, Work;
      var j: nat :| Ends(d, j) && Load(d) == Work(d, j);
      EndsMore(d, if j < k then j else k, if j < k then k else j);
    }

    /** A component's own share is that of its dependencies. */
    lemma LoadSum(d: string, k: nat)
      requires Ends(d, k)
      ensures Load(d) == LoadOf(Deps(d))
    {
      hide Deps, Load;
      LoadIs(d, k);
      forall y | y in Deps(d) ensures LoadFor(y) == if k == 0 then 0 else WorkFor(y, k - 1) {
        assert EndsFor(y, k);
        if Exists(y) && Alias(y) {
          LoadIs(resolve[y], k - 1);
        }
      }
      if k == 0 {
        SumZero(Deps(d), y => LoadFor(y));
      } else {
        SumSame(Deps(d), y => LoadFor(y), y => WorkFor(y, k - 1));
      }
    }

    lemma LoadMore(ds: seq<string>, i: nat)
      requires i < |ds|
      ensures LoadOf(ds[..i + 1]) == LoadOf(ds[..i]) + LoadFor(ds[i])
    {
      assert ds[..i + 1] == ds[..i] + [ds[i]];
      SumAppend(ds[..i], [ds[i]], y => LoadFor(y));
    }

    lemma CostMore(a: seq<string>, b: seq<string>)
      ensures Cost(a + b) == Cost(a) + Cost(b)
    {
      SumAppend(a, b, d => 1 + Load(d));
    }

    lemma CostOne(d: string)
      ensures Cost([]) == 0 && Cost([d]) == 1 + Load(d)
    {
      hide Load;
      assert [d][1..] == [];
    }
  }

  ghost function Sum(s: seq<string>, f: string -> nat): nat {
    if s == [] then 0 else f(s[0]) + Sum(s[1..], f)
  }

  lemma {:induction false} SumSame(s: seq<string>, f: string -> nat, g: string -> nat)
    requires forall x :: x in s ==> f(x) == g(x)
    ensures Sum(s, f) == Sum(s, g)
  {
    if s != [] {
      SumSame(s[1..], f, g);
    }
  }

  lemma {:induction false} SumZero(s: seq<string>, f: string -> nat)
    requires forall x :: x in s ==> f(x) == 0
    ensures Sum(s, f) == 0
  {
    if s != [] {
      SumZero(s[1..], f);
    }
  }

  lemma {:induction false} SumAppend(s: seq<string>, t: seq<string>, f: string -> nat)
    ensures Sum(s + t, f) == Sum(s, f) + Sum(t, f)
  {
    if s == [] {
      assert s + t == t;
    } else {
      assert (s + t)[1..] == s[1..] + t;
      SumAppend(s[1..], t, f);
    }
  }

  lemma DistinctMore(s: seq<string>, x: string)
    requires Distinct(s) && x !in s
    ensures Distinct(s + [x])
  {
  }

  function Members(s: seq<string>): set<string> { set x | x in s }

  lemma InMembers(s: seq<string>, i: nat)
    requires i < |s|
    ensures s[i] in Members(s)
  {
  }

  lemma MembersMore(s: seq<string>, t: seq<string>)
    requires s <= t
    ensures Members(s) <= Members(t)
  {
    assert forall x :: x in s ==> x in t;
  }

  lemma {:induction false} DistinctFits(s: seq<string>, universe: set<string>)
    requires Distinct(s) && Members(s) <= universe
    ensures |s| <= |universe|
  {
    if s != [] {
      var last := s[|s| - 1];
      var init := s[..|s| - 1];
      assert last !in Members(init);
      assert forall x :: x in Members(init) ==> x in Members(s);
      assert last in Members(s);
      DistinctFits(init, universe - {last});
    }
  }
}
