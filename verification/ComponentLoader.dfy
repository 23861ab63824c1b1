/** Loading components (site_scons/site_init.py): the closure of a dependency graph that may have cycles. */
module ComponentLoader {
  import opened Orders
  import opened ComponentTree

  datatype Outcome = Generated | Unsupported | TooDeep

  class Config {
    const tree: Tree
    var dirs: seq<string> // component_directories
    var components: seq<string> // each by its directory
    var selfBuiltComponents: seq<string>

    constructor (tree: Tree)
      ensures this.tree == tree && dirs == [] && components == [] && selfBuiltComponents == []
      ensures tree.Rooted() ==> Valid() && Once()
    {
      this.tree, dirs, components, selfBuiltComponents := tree, [], [], [];
    }

    /** What is loaded are directories with a script, whose component is in one of the two lists. */
    ghost predicate Valid()
      reads this
    {
      && tree.Rooted() && (forall d :: d in dirs ==> d in tree.deps && d in tree.resolve && tree.resolve[d] == d)
      && Members(components) == Members(dirs) - tree.selfBuilt
      && Members(selfBuiltComponents) == Members(dirs) * tree.selfBuilt
      && |components| + |selfBuiltComponents| == |dirs|
    }

    /** Each script was run once. */
    ghost predicate Once()
      reads this
    {
      Distinct(dirs) && Distinct(components)
    }

    /** __load_one_component: the script runs, if there is one. */
    method LoadOne(name: string)
      requires Valid()
      modifies this
      ensures Valid()
      ensures if tree.Exists(name) then
                var d := tree.resolve[name];
                && dirs == old(dirs) + [d]
                && components == old(components) + (if d in tree.selfBuilt then [] else [d])
                && selfBuiltComponents == old(selfBuiltComponents) + (if d in tree.selfBuilt then [d] else [])
              else unchanged(this)
      ensures tree.Canonical() && name !in old(dirs) && old(Once()) ==> Once()
    {
      hide Distinct, Tree.Canonical;
      if name !in tree.resolve {
        return;
      }
      var m := tree.resolve[name];
      if m !in tree.deps {
        return;
      }
      Extended(dirs, components, selfBuiltComponents, m);
      if tree.Canonical() && name !in dirs && Once() {
        CanonicalName(name);
        DistinctMore(dirs, m);
        assert m !in Members(components);
        DistinctMore(components, m);
      }
      dirs := dirs + [m];
      if m in tree.selfBuilt {
        selfBuiltComponents := selfBuiltComponents + [m];
      } else {
        components := components + [m];
      }
    }

    lemma Extended(a: seq<string>, b: seq<string>, c: seq<string>, m: string)
      ensures Members(a + [m]) == Members(a) + {m}
      ensures Members(b + [m]) == Members(b) + {m}
      ensures Members(c + [m]) == Members(c) + {m}
      ensures b + [] == b && c + [] == c
    {
    }

    lemma CanonicalName(name: string)
      requires tree.Canonical() && tree.Exists(name)
      ensures tree.resolve[name] == name
    {
    }

    // -------------------------------------------------------------- how deep the recursion can get

    /** Directories not loaded yet. */
    ghost function LeftOf(now: seq<string>): nat { |tree.deps.Keys - Members(now)| }

    lemma LeftLess(was: seq<string>, now: seq<string>)
      requires was <= now
      ensures LeftOf(now) <= LeftOf(was)
      ensures forall d :: d in tree.deps && d in now && d !in was ==> LeftOf(now) < LeftOf(was)
    {
      MembersMore(was, now);
      var a, b := tree.deps.Keys - Members(now), tree.deps.Keys - Members(was);
      Subset(a, b);
      forall d | d in tree.deps && d in now && d !in was ensures |a| < |b| {
        Subset(a + {d}, b);
      }
    }

    static lemma {:induction false} Subset(a: set<string>, b: set<string>)
      requires a <= b
      ensures |a| <= |b|
    {
      if x :| x in a {
        Subset(a - {x}, b - {x});
      }
    }

    /**
     * A recursion this deep suffices from `now` on, `trail` being the aliases gone through since the last
     * other name.
     */
    ghost function Depth(now: seq<string>, trail: seq<string>): int {
      LeftOf(now) * (|tree.Aliases()| + 1) + |tree.Aliases()| - |trail|
    }

    /** And this deep from anywhere. */
    ghost function Bound(): nat { |tree.deps.Keys| * (|tree.Aliases()| + 1) + |tree.Aliases()| }

    lemma DepthBound(now: seq<string>)
      ensures Depth(now, []) <= Bound()
    {
      Subset(tree.deps.Keys - Members(now), tree.deps.Keys);
      Scaled(LeftOf(now), |tree.deps.Keys|, |tree.Aliases()| + 1);
    }

    lemma DepthMore(was: seq<string>, now: seq<string>, trail: seq<string>)
      requires was <= now
      ensures Depth(now, trail) <= Depth(was, trail)
    {
      hide LeftOf;
      LeftLess(was, now);
      Scaled(LeftOf(now), LeftOf(was), |tree.Aliases()| + 1);
    }

    lemma DepthNatural(trail: seq<string>, name: string)
      requires tree.TrailTo(trail, name)
      ensures Depth(dirs, trail) >= 0
    {
      hide LeftOf, Tree.TrailTo, Tree.Aliases;
      tree.TrailFits(trail, name);
      Scaled(0, LeftOf(dirs), |tree.Aliases()| + 1);
    }

    static lemma Scaled(a: nat, b: nat, n: nat)
      requires a <= b
      ensures a * n <= b * n && (a + 1) * n == a * n + n
    {
    }

    /** The aliases gone through after loading `name`. */
    ghost function Next(name: string, trail: seq<string>): seq<string> {
      if tree.Alias(name) && name !in trail then trail + [name] else []
    }

    /** What the recursion after loading `name` may rely on. */
    lemma Onward(was: seq<string>, name: string, trail: seq<string>, limit: nat)
      requires tree.Exists(name) && name !in was && tree.TrailTo(trail, name)
      ensures forall x :: x in tree.Deps(tree.resolve[name]) ==> tree.TrailTo(Next(name, trail), x)
      ensures !tree.Doomed(name, Members(was)) && limit > Depth(was, trail) ==>
                limit - 1 > Depth(was + [tree.resolve[name]], Next(name, trail))
    {
      hide LeftOf, Tree.TrailTo, Tree.Aliases, Tree.Doomed, Tree.Deps;
      var now, next := was + [tree.resolve[name]], Next(name, trail);
      forall x | x in tree.Deps(tree.resolve[name]) ensures tree.TrailTo(next, x) {
        if next == [] {
          tree.NoTrail(x);
        } else {
          tree.TrailMore(trail, name, x);
        }
      }
      tree.TrailFits(trail, name);
      LeftLess(was, now);
      if tree.Alias(name) {
        if name in trail {
          tree.TrailTraps(trail, name);
          tree.TrappedIsDoomed(name, Members(was));
        }
        DepthMore(was, now, trail);
      } else {
        assert name in now;
        Scaled(LeftOf(now) + 1, LeftOf(was), |tree.Aliases()| + 1);
        Scaled(LeftOf(now), LeftOf(was), |tree.Aliases()| + 1);
      }
    }

    /** Nothing that `name` needs is doomed, unless `name` is. */
    lemma NotDoomedOnward(was: seq<string>, name: string)
      requires tree.Exists(name) && name !in was && !tree.Doomed(name, Members(was))
      ensures forall y :: y in tree.Deps(tree.resolve[name]) ==>
                !tree.Doomed(y, Members(was + [tree.resolve[name]]))
    {
      hide Tree.Doomed, Tree.Deps;
      var now := was + [tree.resolve[name]];
      MembersMore(was, now);
      forall y | y in tree.Deps(tree.resolve[name]) ensures !tree.Doomed(y, Members(now)) {
        if tree.Doomed(y, Members(now)) {
          tree.DoomedLess(y, Members(was), Members(now));
          tree.DoomedBefore(name, y, Members(was));
        }
      }
    }

    // -------------------------------------------------------------- the recursion

    /** A name that is loaded, or is none. */
    lemma NothingToDo(name: string)
      requires Valid() && (name in dirs || !tree.Exists(name))
      ensures tree.Handled(dirs, dirs) && tree.Fine(name, dirs, dirs) && tree.Needed(dirs, dirs, tree.Seeds(name))
      ensures !tree.Doomed(name, Members(dirs)) && !(tree.Exists(name) && tree.Alias(name))
      ensures tree.Cost(components[|components|..]) == 0
    {
      hide Tree.Doomed, Tree.Trapped, Members, Tree.Cost, Tree.Handled;
      if tree.Trapped(name) {
        tree.TrappedNeeds(name);
      }
      tree.HandledNone(dirs);
      tree.NeededNone(dirs, tree.Seeds(name));
      tree.FineNotDoomed(name, dirs, dirs);
      assert components[|components|..] == [];
      tree.CostOne(name);
    }

    /** Loading `name` was all there was to do, or what it needs was seen to as well. */
    lemma Loaded(was: seq<string>, name: string, now: seq<string>)
      requires tree.Exists(name) && name !in was
      requires var m := tree.resolve[name]; tree.Handled(was + [m], now) && tree.AllFine(m, was + [m], now)
      ensures tree.Handled(was, now) && tree.Fine(name, was, now) && !tree.Doomed(name, Members(was))
    {
      hide Tree.Doomed, Tree.Trapped, Members, Tree.Handled, Tree.Deps;
      var m := tree.resolve[name];
      tree.HandledFirst(was, m, now);
      if tree.Trapped(name) {
        tree.TrappedNeeds(name);
      }
      tree.FineNotDoomed(name, was, now);
    }

    lemma LoadedNeeded(was: seq<string>, name: string, now: seq<string>)
      requires tree.Exists(name) && tree.Needed(was + [tree.resolve[name]], now, {})
      ensures tree.Needed(was, now, tree.Seeds(name))
    {
      hide Tree.Needed;
      tree.NeededOne(was, tree.resolve[name]);
      tree.NeededMore(was, was + [tree.resolve[name]], now, {tree.resolve[name]});
    }

    lemma SelfBuiltLoaded(was: seq<string>, name: string)
      requires tree.Exists(name) && tree.resolve[name] in tree.selfBuilt
      ensures var mid := was + [tree.resolve[name]];
              tree.Handled(mid, mid) && tree.AllFine(tree.resolve[name], mid, mid) && tree.Needed(mid, mid, {})
      ensures tree.Cost([]) == 0 && forall k :: tree.Ends(tree.resolve[name], k)
    {
      tree.HandledNone(was + [tree.resolve[name]]);
    }

    /** The components that loading an alias adds are paid for by what the alias stands for. */
    lemma LoadedCost(was: seq<string>, name: string, now: seq<string>, added: seq<string>, more: seq<string>)
      requires tree.Exists(name) && name !in was && was + [tree.resolve[name]] <= now
      requires added == [tree.resolve[name]] + more || added == []
      requires LeftOf(now) == LeftOf(was + [tree.resolve[name]]) ==> tree.Cost(more) <= tree.Load(tree.resolve[name])
      ensures LeftOf(now) == LeftOf(was) ==> tree.Cost(added) <= tree.LoadFor(name)
    {
      hide LeftOf, Tree.Cost, Tree.Load;
      var m := tree.resolve[name];
      LeftLess(was, was + [m]);
      LeftLess(was + [m], now);
      assert m in was + [m];
      tree.CostMore([m], more);
      tree.CostOne(m);
    }

    /**
     * __add_components_dependency with `limit` levels of recursion left; false if they did not suffice.
     *
     * A doomed name exceeds any limit, loading a directory at each level; for any other one some limit
     * suffices.  Then all that `name` needs is loaded, and in no case anything else; with canonical names
     * nothing is loaded twice.
     */
    method AddDependency(name: string, limit: nat, ghost trail: seq<string>) returns (ok: bool)
      requires Valid() && tree.TrailTo(trail, name)
      modifies this
      ensures Valid() && old(dirs) <= dirs && old(components) <= components
      ensures !ok ==> |dirs| >= |old(dirs)| + limit
      ensures limit > 0 && (name in old(dirs) || !tree.Exists(name)) ==> ok && dirs == old(dirs)
      ensures limit > 0 && name !in old(dirs) && tree.Exists(name) ==> old(dirs) + [tree.resolve[name]] <= dirs
      ensures tree.Doomed(name, Members(old(dirs))) ==> !ok
      ensures !tree.Doomed(name, Members(old(dirs))) && limit > Depth(old(dirs), trail) ==> ok
      ensures ok ==> tree.Handled(old(dirs), dirs) && tree.Fine(name, old(dirs), dirs)
      ensures tree.Needed(old(dirs), dirs, tree.Seeds(name))
      ensures tree.Canonical() && old(Once()) ==> Once()
      // aliases make it load again what is loaded, but not for ever
      ensures ok ==> tree.EndsFor(name, limit)
      ensures ok && LeftOf(dirs) == LeftOf(old(dirs)) ==>
                tree.Cost(components[|old(components)|..]) <= tree.LoadFor(name)
      decreases limit, 0
    {
      hide Valid, Once, LeftOf, Depth, Next, Members, Tree.TrailTo, Tree.Canonical, Tree.Doomed, Tree.Handled;
      hide Tree.Fine, Tree.AllFine, Tree.Needed, Tree.Seeds, Tree.Ends, Tree.Cost, Tree.Load, Tree.LoadFor;
      ghost var was, n := dirs, |components|;
      if limit == 0 {
        DepthNatural(trail, name);
        tree.NeededNone(dirs, tree.Seeds(name));
        return false;
      }
      if name in dirs {
        NothingToDo(name);
        return true;
      }
      if !tree.Exists(name) {
        NothingToDo(name);
      }
      var before := |components|;
      LoadOne(name);
      // the component its script added, if it did
      var added := components[before..];
      if added == [] {
        if tree.Exists(name) {
          SelfBuiltLoaded(was, name);
          Loaded(was, name, dirs);
          LoadedNeeded(was, name, dirs);
          LoadedCost(was, name, dirs, [], []);
        }
        return true;
      }
      assert added == [tree.resolve[name]] && dirs == was + [tree.resolve[name]];
      Onward(was, name, trail, limit);
      if !tree.Doomed(name, Members(was)) {
        NotDoomedOnward(was, name);
      }
      ok := AddDependencies(added[0], limit - 1, Next(name, trail));
      LoadedNeeded(was, name, dirs);
      if ok {
        Loaded(was, name, dirs);
        LoadedCost(was, name, dirs, components[n..], components[n + 1..]);
      }
    }

    /** The loop over one component's dependencies; `c` has been loaded. */
    method AddDependencies(c: string, limit: nat, ghost trail: seq<string>) returns (ok: bool)
      requires Valid() && c in dirs && forall x :: x in tree.Deps(c) ==> tree.TrailTo(trail, x)
      modifies this
      ensures Valid() && old(dirs) <= dirs && old(components) <= components
      ensures !ok ==> |dirs| >= |old(dirs)| + limit
      ensures limit > Depth(old(dirs), trail) && (forall y :: y in tree.Deps(c) ==> !tree.Doomed(y, Members(old(dirs))))
              ==> ok
      ensures ok ==> tree.Handled(old(dirs), dirs) && tree.AllFine(c, old(dirs), dirs)
      ensures tree.Needed(old(dirs), dirs, {})
      ensures tree.Canonical() && old(Once()) ==> Once()
      ensures ok ==> tree.Ends(c, limit)
      ensures ok && LeftOf(dirs) == LeftOf(old(dirs)) ==>
                tree.Cost(components[|old(components)|..]) <= tree.Load(c)
      decreases limit, 1
    {
      hide Valid, Once, LeftOf, Depth, Members, Tree.Deps, Tree.TrailTo, Tree.Canonical, Tree.Doomed, Tree.Handled;
      hide Tree.Fine, Tree.AllFine, Tree.Needed, Tree.Seeds, Tree.EndsFor, Tree.Ends, Tree.Cost, Tree.Load, Tree.LoadOf;
      ghost var was, old', ds := dirs, components, tree.Deps(c);
      var i := 0;
      Starting();
      while i < |tree.Deps(c)|
        invariant 0 <= i <= |ds| && Valid() && was <= dirs && old' <= components
        invariant tree.Handled(was, dirs) && tree.Needed(was, dirs, {})
        invariant tree.Canonical() && old(Once()) ==> Once()
        invariant forall j :: 0 <= j < i ==> tree.Fine(ds[j], was, dirs) && tree.EndsFor(ds[j], limit)
        invariant LeftOf(dirs) == LeftOf(was) ==> tree.Cost(components[|old'|..]) <= tree.LoadOf(ds[..i])
      {
        ghost var mid, had := dirs, components;
        var dep := tree.Deps(c)[i];
        assert dep in ds;
        ok := AddDependency(dep, limit, trail);
        tree.NeededDep(c, dep, mid, dirs);
        tree.NeededMore(was, mid, dirs, {});
        if !ok {
          NotDoomedLater(dep, was, mid, trail);
          return;
        }
        tree.HandledMore(was, mid, dirs);
        forall j | 0 <= j <= i ensures tree.Fine(ds[j], was, dirs) {
          if j < i { tree.FineMore(ds[j], was, was, mid, dirs); } else { tree.FineMore(dep, was, mid, dirs, dirs); }
        }
        CostOn(was, mid, old', had, ds, i);
        i := i + 1;
      }
      ok := true;
      AllSeen(c, was, limit);
      assert ds[..i] == ds;
      tree.LoadSum(c, limit);
    }

    lemma Starting()
      ensures tree.Handled(dirs, dirs) && tree.Needed(dirs, dirs, {}) && tree.Cost(components[|components|..]) == 0
    {
      hide Tree.Handled;
      tree.HandledNone(dirs);
      assert components[|components|..] == [];
    }

    lemma NotDoomedLater(y: string, was: seq<string>, now: seq<string>, trail: seq<string>)
      requires was <= now
      ensures tree.Doomed(y, Members(now)) ==> tree.Doomed(y, Members(was))
      ensures Depth(now, trail) <= Depth(was, trail)
    {
      hide Tree.Doomed, Depth;
      MembersMore(was, now);
      DepthMore(was, now, trail);
      if tree.Doomed(y, Members(now)) {
        tree.DoomedLess(y, Members(was), Members(now));
      }
    }

    lemma CostOn(was: seq<string>, mid: seq<string>, a: seq<string>, b: seq<string>, ds: seq<string>, i: nat)
      requires was <= mid <= dirs && a <= b <= components && i < |ds|
      requires LeftOf(mid) == LeftOf(was) ==> tree.Cost(b[|a|..]) <= tree.LoadOf(ds[..i])
      requires LeftOf(dirs) == LeftOf(mid) ==> tree.Cost(components[|b|..]) <= tree.LoadFor(ds[i])
      ensures LeftOf(dirs) == LeftOf(was) ==> tree.Cost(components[|a|..]) <= tree.LoadOf(ds[..i + 1])
    {
      hide LeftOf, Tree.Cost, Tree.LoadOf, Tree.LoadFor;
      LeftLess(was, mid);
      LeftLess(mid, dirs);
      tree.CostMore(b[|a|..], components[|b|..]);
      assert components[|a|..] == b[|a|..] + components[|b|..];
      tree.LoadMore(ds, i);
    }

    lemma AllSeen(c: string, was: seq<string>, limit: nat)
      requires was <= dirs
      requires var ds := tree.Deps(c);
               forall j :: 0 <= j < |ds| ==> tree.Fine(ds[j], was, dirs) && tree.EndsFor(ds[j], limit)
      ensures tree.AllFine(c, was, dirs) && tree.Ends(c, limit)
    {
      hide Tree.Fine, Tree.EndsFor, Tree.Deps;
    }

    // -------------------------------------------------------------- the loop over all components

    /**
     * Lines 508-510: the loop over `components`, which grows while it runs. It ends with all that is needed,
     * and no more, if no trap is: that is, if the loaded directories lie in a closed set free of traps.
     */
    method AddAll(limit: nat) returns (ok: bool)
      requires Valid()
      modifies this
      ensures Valid() && old(dirs) <= dirs && tree.Needed(old(dirs), dirs, {})
      ensures ok ==> tree.Closed(Members(dirs)) && tree.Clean(Members(dirs))
      ensures limit > Bound() && (exists s :: tree.Closed(s) && tree.Clean(s) && Members(old(dirs)) <= s) ==> ok
      ensures tree.Canonical() && old(Once()) ==> Once()
    {
      hide Valid, Once, LeftOf, Depth, Bound, Members, Tree.Deps, Tree.TrailTo, Tree.Canonical, Tree.Doomed;
      hide Tree.Handled, Tree.Fine, Tree.AllFine, Tree.Needed, Tree.Ends, Tree.Cost, Tree.Load, Tree.Satisfied;
      hide Tree.Untrapped;
      hide Tree.Closed, Tree.Clean;
      ghost var was := dirs;
      Starting();
      var i := 0;
      while i < |components|
        invariant Valid() && 0 <= i <= |components| && was <= dirs && tree.Needed(was, dirs, {})
        invariant tree.Canonical() && old(Once()) ==> Once()
        invariant forall j {:trigger components[j]} :: 0 <= j < i ==>
                    tree.Satisfied(components[j], Members(dirs)) && tree.Untrapped(components[j])
        decreases LeftOf(dirs), tree.Cost(components[i..])
      {
        ghost var mid, before := dirs, components;
        Visiting(i);
        forall x | x in tree.Deps(components[i]) ensures tree.TrailTo([], x) {
          tree.NoTrail(x);
        }
        ok := AddDependencies(components[i], limit, []);
        tree.NeededMore(was, mid, dirs, {});
        if !ok {
          SafeToVisit(before[i], was, mid, limit);
          return;
        }
        tree.FineSatisfies(before[i], mid, dirs);
        forall j {:trigger components[j]} | 0 <= j < i
          ensures tree.Satisfied(components[j], Members(dirs)) && tree.Untrapped(components[j])
        {
          assert components[j] == before[j];
          SatisfiedGrows(before[j], mid, dirs);
        }
        Shrinks(mid, before, i);
        i := i + 1;
      }
      AllClosed();
      ok := true;
    }

    lemma Visiting(i: nat)
      requires Valid() && i < |components|
      ensures components[i] in dirs
    {
      assert components[i] in Members(components);
    }

    /** Needing no trap, a component can be visited with any limit above the bound. */
    lemma SafeToVisit(c: string, was: seq<string>, now: seq<string>, limit: nat)
      requires c in now && tree.Needed(was, now, {})
      ensures limit > Bound() ==> limit > Depth(now, [])
      ensures (exists s :: tree.Closed(s) && tree.Clean(s) && Members(was) <= s) ==>
                forall y :: y in tree.Deps(c) ==> !tree.Doomed(y, Members(now))
    {
      hide Depth, Bound, Tree.Doomed, Tree.Deps, Tree.Closed, Tree.Clean;
      DepthBound(now);
      if s :| tree.Closed(s) && tree.Clean(s) && Members(was) <= s {
        assert c in Members(now);
        forall y | y in tree.Deps(c) ensures !tree.Doomed(y, Members(now)) {
          tree.CleanIsSafe(c, y, s, Members(now));
        }
      }
    }

    lemma SatisfiedGrows(d: string, was: seq<string>, now: seq<string>)
      requires was <= now && tree.Satisfied(d, Members(was))
      ensures tree.Satisfied(d, Members(now))
    {
      MembersMore(was, now);
    }

    /** A turn loads something new, or leaves less to do. */
    lemma Shrinks(mid: seq<string>, before: seq<string>, i: nat)
      requires mid <= dirs && before <= components && i < |before|
      requires LeftOf(dirs) == LeftOf(mid) ==> tree.Cost(components[|before|..]) <= tree.Load(before[i])
      ensures LeftOf(dirs) <= LeftOf(mid)
      ensures LeftOf(dirs) == LeftOf(mid) ==> tree.Cost(components[i + 1..]) < tree.Cost(before[i..])
    {
      hide LeftOf, Tree.Cost, Tree.Load;
      LeftLess(mid, dirs);
      tree.CostOne(before[i]);
      tree.CostMore([before[i]], before[i + 1..]);
      assert before[i..] == [before[i]] + before[i + 1..];
      tree.CostMore(before[i + 1..], components[|before|..]);
      assert components[i + 1..] == before[i + 1..] + components[|before|..];
    }

    lemma AllClosed()
      requires Valid()
      requires forall j {:trigger components[j]} :: 0 <= j < |components| ==>
                tree.Satisfied(components[j], Members(dirs)) && tree.Untrapped(components[j])
      ensures tree.Closed(Members(dirs)) && tree.Clean(Members(dirs))
    {
      hide Tree.Trapped;
      forall d | d in Members(dirs) ensures tree.Satisfied(d, Members(dirs)) && tree.Untrapped(d) {
        if d !in tree.selfBuilt {
          assert d in Members(components);
          var j :| 0 <= j < |components| && components[j] == d;
        }
      }
    }

    // -------------------------------------------------------------- the whole

    /**
     * __generate_all_components, with `limit` levels of recursion. It exceeds every limit exactly when a trap
     * can be reached from the board or the application; otherwise what is loaded is exactly what can be.
     */
    method GenerateAll(board: string, app: string, limit: nat) returns (r: Outcome)
      requires tree.Rooted() && dirs == [] && components == [] && selfBuiltComponents == []
      modifies this
      ensures r == Unsupported <==>
                !tree.Exists(board) || tree.resolve[board] in tree.selfBuilt || !tree.Exists(app)
      ensures tree.TrapAhead(board) || tree.TrapAhead(app) ==> r != Generated
      ensures !tree.TrapAhead(board) && !tree.TrapAhead(app) && limit > Bound() ==> r != TooDeep
      ensures tree.Canonical() && limit > |tree.deps.Keys| ==> r != TooDeep
      ensures r == Generated ==>
                Valid() && forall d :: d in dirs <==> tree.Reaches(board, d) || tree.Reaches(app, d)
      ensures r == Generated && tree.Canonical() && board != app ==> Once()
    {
      hide Tree.TrapAhead, Tree.Canonical, Tree.Reaches, Valid, Once, Bound, Tree.Closed, Tree.Clean, Tree.Needed;
      hide Members, Distinct;
      Empty();
      LoadOne(board);
      if |components| != 1 {
        return Unsupported;
      }
      if tree.Canonical() {
        CanonicalName(board);
      }
      LoadOne(app);
      if |components| + |selfBuiltComponents| != 2 {
        return Unsupported;
      }
      ghost var roots := dirs;
      Limits(board, app);
      var ok := AddAll(limit);
      if ok {
        Exactly(board, app, roots);
      }
      r := if ok then Generated else TooDeep;
    }

    lemma Empty()
      requires tree.Rooted() && dirs == [] && components == [] && selfBuiltComponents == []
      ensures Valid() && Once()
    {
    }

    /** The closed set that shows that the loop ends. */
    lemma Limits(board: string, app: string)
      requires tree.Exists(board) && tree.Exists(app) && dirs == [tree.resolve[board], tree.resolve[app]]
      ensures !tree.TrapAhead(board) && !tree.TrapAhead(app) ==>
                exists s :: tree.Closed(s) && tree.Clean(s) && Members(dirs) <= s
      ensures tree.Canonical() ==> !tree.TrapAhead(board) && !tree.TrapAhead(app) && Bound() == |tree.deps.Keys|
    {
      hide Tree.Closed, Tree.Clean, Tree.Canonical, Tree.Trapped, Tree.Reaches, Tree.Path;
      tree.ReachedClosed(board, app);
      tree.ReachesItself(board);
      tree.ReachesItself(app);
      assert Members(dirs) <= tree.Reached(board, app);
      if tree.Canonical() {
        tree.CanonicalHasNoTraps();
      }
    }

    lemma Exactly(board: string, app: string, roots: seq<string>)
      requires Valid() && tree.Exists(board) && tree.Exists(app)
      requires roots == [tree.resolve[board], tree.resolve[app]] && roots <= dirs
      requires tree.Needed(roots, dirs, {}) && tree.Closed(Members(dirs)) && tree.Clean(Members(dirs))
      ensures forall d :: d in dirs <==> tree.Reaches(board, d) || tree.Reaches(app, d)
      ensures !tree.TrapAhead(board) && !tree.TrapAhead(app)
    {
      hide Tree.Closed, Tree.Clean, Tree.Reaches, Tree.Path, Tree.Trapped, Valid;
      var r := tree.Reached(board, app);
      tree.ReachedClosed(board, app);
      tree.ReachesItself(board);
      tree.ReachesItself(app);
      assert Members(roots) == {tree.resolve[board], tree.resolve[app]};
      MembersMore(roots, dirs);
      assert Members(dirs) <= r;
      forall d | tree.Reaches(board, d) || tree.Reaches(app, d) ensures d in dirs {
        if tree.Reaches(board, d) {
          tree.ReachesInside(board, d, Members(dirs));
        } else {
          tree.ReachesInside(app, d, Members(dirs));
        }
        assert d in Members(dirs);
      }
      forall d | d in dirs ensures tree.Reaches(board, d) || tree.Reaches(app, d) {
        assert d in Members(dirs);
      }
      NoTrapAhead(board);
      NoTrapAhead(app);
    }

    lemma NoTrapAhead(root: string)
      requires tree.Exists(root) && tree.resolve[root] in Members(dirs)
      requires tree.Closed(Members(dirs)) && tree.Clean(Members(dirs))
      ensures !tree.TrapAhead(root)
    {
      hide Tree.Closed, Tree.Clean, Tree.Path, Tree.Trapped;
      if tree.TrapAhead(root) {
        var p, to :| tree.Path(p, root, to) && tree.Trapped(to);
        tree.NoTrapFromClean(p, root, to, Members(dirs));
      }
    }

    /**
     * Naming a component again loads its directory again if and only if it is found elsewhere than under
     * its name, for then the test of line 392 never finds it.
     */
    method NamedTwice(name: string, limit: nat) returns (ok: bool, ghost mid: seq<string>)
      requires Valid() && tree.Exists(name) && name !in dirs && limit > 0
      modifies this
      ensures Valid() && |dirs| > |old(dirs)| && dirs[|old(dirs)|] == tree.resolve[name]
      ensures ok ==> old(dirs) < mid <= dirs && (mid < dirs <==> tree.resolve[name] != name)
      ensures ok && tree.resolve[name] != name ==> !Distinct(dirs)
    {
      hide Tree.TrailTo, Tree.Handled, Tree.Doomed, Tree.Needed, Tree.Cost, Tree.LoadFor, Tree.EndsFor;
      ghost var n := |dirs|;
      tree.NoTrail(name);
      ok := AddDependency(name, limit, []);
      mid := dirs;
      assert dirs[n] == tree.resolve[name];
      if !ok {
        return;
      }
      ok := AddDependency(name, limit, []);
      assert name in mid <==> tree.resolve[name] == name;
      if tree.resolve[name] != name {
        assert dirs[|mid|] == tree.resolve[name] == dirs[n];
      }
    }
  }

  const SELF_NAMED: Tree := Tree(map["a" := "a", "m" := "framework/m", "framework/m" := "framework/m"],
                                 map["a" := ["m"], "framework/m" := ["m"]], {})

  /** Such a trap: a component found by the path search that names itself. */
  lemma SelfNamed()
    ensures SELF_NAMED.Rooted() && SELF_NAMED.Trapped("m")
  {
    hide Tree.Trapped, Tree.Deps;
    Names();
    assert "m" in SELF_NAMED.Deps("framework/m") by {
      hide *;
      OneDependency();
    }
    SELF_NAMED.NeedsItself("m");
  }

  lemma OneDependency()
    ensures SELF_NAMED.Deps("framework/m") == ["m"] && SELF_NAMED.Deps("a") == ["m"]
  {
    Names();
  }

  lemma Names()
    ensures "m" != "framework/m" && "a" != "framework/m" && "a" != "m"
  {
    assert |"framework/m"| == 11;
  }

  /** A name that is no trap, nor an alias, but doomed, since it depends on one. */
  lemma DoomedName()
    ensures SELF_NAMED.Exists("a") && !SELF_NAMED.Alias("a") && !SELF_NAMED.Trapped("a") && SELF_NAMED.Doomed("a", {})
  {
    hide Tree.Trapped, Tree.Doomed;
    SelfNamed();
    SELF_NAMED.TrappedIsDoomed("m", {});
    OneDependency();
    SELF_NAMED.DoomedBefore("a", "m", {});
    if SELF_NAMED.Trapped("a") {
      SELF_NAMED.TrappedNeeds("a");
    }
  }
}
