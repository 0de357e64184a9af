/** The table of tracked names: who holds which registration, and what taking one away does. Names,
    categories and registrations are of any type; registrations are compared after normalising. */
module Registry {

  datatype Entry<C, R> = Entry(category: C, registrations: seq<R>)

  /** How registrations are normalised; `blank` is what an empty one normalises to. */
  datatype Norm<!R> = Norm(of: R -> R, blank: R)

  ghost predicate Stable<R(!new)>(norm: Norm<R>) { forall r :: norm.of(norm.of(r)) == norm.of(r) }

  predicate Carries<C, R(==)>(e: Entry<C, R>, norm: Norm<R>, r: R) {
    exists i :: 0 <= i < |e.registrations| && norm.of(e.registrations[i]) == r
  }

  /** `name` holds the (normalised) registration `r`. */
  predicate Holds<N(==), C, R(==)>(details: map<N, Entry<C, R>>, norm: Norm<R>, name: N, r: R) {
    name in details && Carries(details[name], norm, r)
  }

  // ---- taking a registration away ----

  function KeptUpTo<R(==)>(regs: seq<R>, norm: Norm<R>, r: R, n: nat): (kept: seq<R>)
    requires n <= |regs|
    ensures |kept| <= n
  {
    if n == 0 then []
    else KeptUpTo(regs, norm, r, n - 1) + if norm.of(regs[n - 1]) == r then [] else [regs[n - 1]]
  }

  /** The registrations other than `r`, in their order. */
  function Kept<R(==)>(regs: seq<R>, norm: Norm<R>, r: R): seq<R> { KeptUpTo(regs, norm, r, |regs|) }

  lemma {:induction false} KeptMembers<R>(regs: seq<R>, norm: Norm<R>, r: R, n: nat, x: R)
    requires n <= |regs|
    ensures x in KeptUpTo(regs, norm, r, n) <==> norm.of(x) != r && exists i :: 0 <= i < n && regs[i] == x
  {
    if n > 0 { KeptMembers(regs, norm, r, n - 1, x); }
  }

  lemma {:induction false} KeptAll<R>(regs: seq<R>, norm: Norm<R>, r: R, n: nat)
    requires n <= |regs|
    ensures |KeptUpTo(regs, norm, r, n)| == n <==> forall i :: 0 <= i < n ==> norm.of(regs[i]) != r
    ensures |KeptUpTo(regs, norm, r, n)| == n ==> KeptUpTo(regs, norm, r, n) == regs[..n]
  {
    if n > 0 {
      KeptAll(regs, norm, r, n - 1);
      assert regs[..n] == regs[..n - 1] + [regs[n - 1]];
    }
  }

  /** What is left of an entry that is not protected; nothing when it loses its last registration. */
  predicate Emptied<C, R(==)>(e: Entry<C, R>, norm: Norm<R>, r: R) {
    e.registrations != [] && Kept(e.registrations, norm, r) == []
  }

  function Without<C, R(==)>(e: Entry<C, R>, norm: Norm<R>, r: R): Entry<C, R> {
    e.(registrations := Kept(e.registrations, norm, r))
  }

  lemma WithoutCarries<C, R>(e: Entry<C, R>, norm: Norm<R>, r: R, x: R)
    ensures Carries(Without(e, norm, r), norm, x) <==> Carries(e, norm, x) && x != r
  {
    var regs, kept := e.registrations, Kept(e.registrations, norm, r);
    if Carries(Without(e, norm, r), norm, x) {
      var i :| 0 <= i < |kept| && norm.of(kept[i]) == x;
      KeptMembers(regs, norm, r, |regs|, kept[i]);
    }
    if Carries(e, norm, x) && x != r {
      var i :| 0 <= i < |regs| && norm.of(regs[i]) == x;
      KeptMembers(regs, norm, r, |regs|, regs[i]);
      var j :| 0 <= j < |kept| && kept[j] == regs[i];
    }
  }

  lemma EmptiedCarries<C, R>(e: Entry<C, R>, norm: Norm<R>, r: R, x: R)
    requires Emptied(e, norm, r) && Carries(e, norm, x)
    ensures x == r
  {
    WithoutCarries(e, norm, r, x);
  }

  /** `steal_reg` */
  function Stolen<N(==), C, R(==)>(
        details: map<N, Entry<C, R>>, norm: Norm<R>, r: R, protected: set<N>): map<N, Entry<C, R>> {
    map name | name in details && (name in protected || !Emptied(details[name], norm, r)) ::
      if name in protected then details[name] else Without(details[name], norm, r)
  }

  /** Stealing takes `r` from every unprotected name and nothing else from anybody. */
  lemma StolenHolds<N, C, R>(details: map<N, Entry<C, R>>, norm: Norm<R>, r: R, protected: set<N>, name: N, x: R)
    ensures Holds(Stolen(details, norm, r, protected), norm, name, x)
            <==> Holds(details, norm, name, x) && (x != r || name in protected)
  {
    if name in details && name !in protected {
      WithoutCarries(details[name], norm, r, x);
      if Emptied(details[name], norm, r) && Carries(details[name], norm, x) {
        EmptiedCarries(details[name], norm, r, x);
      }
    }
  }

  /** The loop of `steal_reg`, over a snapshot of the names in any order. */
  method StealReg<N(==), C, R(==)>(details: map<N, Entry<C, R>>, norm: Norm<R>, r: R, protected: set<N>)
    returns (left: map<N, Entry<C, R>>)
    ensures left == Stolen(details, norm, r, protected)
  {
    left := details;
    var todo := details.Keys;
    while todo != {}
      invariant todo <= details.Keys
      invariant forall name ::
                  name in left <==> name in details && (name in todo || name in Stolen(details, norm, r, protected))
      invariant forall name :: name in left ==>
                  left[name] == if name in todo then details[name] else Stolen(details, norm, r, protected)[name]
      decreases |todo|
    {
      var name :| name in todo;
      todo := todo - {name};
      if name in protected { continue; }
      var info := details[name];
      var kept := Kept(info.registrations, norm, r);
      KeptAll(info.registrations, norm, r, |info.registrations|);
      assert info.registrations[..|info.registrations|] == info.registrations;
      if |kept| != |info.registrations| {
        if kept != [] {
          left := left[name := info.(registrations := kept)];
        } else {
          left := left - {name};
        }
      }
    }
  }

  // ---- giving one ----

  function Given<C, R(==)>(e: Entry<C, R>, norm: Norm<R>, r: R): Entry<C, R> {
    if Carries(e, norm, r) then e else e.(registrations := e.registrations + [r])
  }

  lemma GivenCarries<C, R>(e: Entry<C, R>, norm: Norm<R>, r: R, x: R)
    requires norm.of(r) == r
    ensures Carries(Given(e, norm, r), norm, x) <==> Carries(e, norm, x) || x == r
  {
    var more := e.registrations + [r];
    assert more[|e.registrations|] == r;
    if Carries(e, norm, x) {
      var i :| 0 <= i < |e.registrations| && norm.of(e.registrations[i]) == x;
      assert more[i] == e.registrations[i];
    }
  }

  function EntryOf<N(==), C, R>(details: map<N, Entry<C, R>>, name: N, category: C): Entry<C, R> {
    if name in details then details[name] else Entry(category, [])
  }
}
