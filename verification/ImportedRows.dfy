/** Importing rows: the row loop of scripts/apply_plane_alert_to_tracked_names.py. */
module ImportedRows {
  import opened Registry

  datatype Display<N> = NoName | Named(name: N)

  /** One row: its category and whether that is one of the four accepted, its registration, and the name
      and category it would be shown under. */
  datatype Row<N, G, C, R> = Row(group: G, strict: bool, reg: R, display: Display<N>, category: C)

  /** The variables of the loop. */
  datatype State<N, G(==), C, R> =
    State(details: map<N, Entry<C, R>>, index: set<R>, seen: set<(R, G)>, names: seq<(N, C)>, listed: set<N>,
          addedEntries: nat, addedRegs: nat, mergedRegs: nat)

  /** A row that is looked at: accepted, with a registration, and the first of its registration and category. */
  predicate Considered<N, G(==), C, R(==)>(s: State<N, G, C, R>, norm: Norm<R>, row: Row<N, G, C, R>) {
    row.strict && norm.of(row.reg) != norm.blank && (norm.of(row.reg), row.group) !in s.seen
  }

  function Next<N(==), G(==), C, R(==)>(s: State<N, G, C, R>, norm: Norm<R>, row: Row<N, G, C, R>): State<N, G, C, R> {
    var r := norm.of(row.reg);
    if !Considered(s, norm, row) then s
    else
      var s := s.(seen := s.seen + {(r, row.group)});
      if row.display.NoName? || r in s.index then s
      else Enter(s, row.display.name, row.category, r)
  }

  function Enter<N(==), G(==), C, R(==)>(s: State<N, G, C, R>, name: N, category: C, r: R): State<N, G, C, R> {
    if name in s.details then
      if r in s.details[name].registrations then s
      else s.(details := s.details[name := s.details[name].(registrations := s.details[name].registrations + [r])],
              index := s.index + {r}, mergedRegs := s.mergedRegs + 1)
    else
      var s := s.(details := s.details[name := Entry(category, [r])], index := s.index + {r},
                  addedRegs := s.addedRegs + 1);
      if name in s.listed then s
      else s.(names := s.names + [(name, category)], listed := s.listed + {name}, addedEntries := s.addedEntries + 1)
  }

  function After<N(==), G(==), C, R(==)>(
        s: State<N, G, C, R>, norm: Norm<R>, rows: seq<Row<N, G, C, R>>, n: nat): State<N, G, C, R>
    requires n <= |rows|
  {
    if n == 0 then s else Next(After(s, norm, rows, n - 1), norm, rows[n - 1])
  }

  // ---- the index is exact ----

  ghost predicate SomeoneHolds<N(!new), C, R>(details: map<N, Entry<C, R>>, norm: Norm<R>, r: R) {
    exists name :: Holds(details, norm, name, r)
  }

  /** The index holds exactly the registrations in the table. */
  ghost predicate Indexed<N(!new), G, C, R(!new)>(s: State<N, G, C, R>, norm: Norm<R>) {
    forall r :: r in s.index <==> r != norm.blank && SomeoneHolds(s.details, norm, r)
  }

  /** The normalised registrations of a table, without the blank one. */
  method RegsOf<N(==, !new), C, R(==, !new)>(norm: Norm<R>, details: map<N, Entry<C, R>>) returns (regs: set<R>)
    ensures forall r :: r in regs <==> r != norm.blank && SomeoneHolds(details, norm, r)
  {
    regs := {};
    var todo := details.Keys;
    while todo != {}
      invariant todo <= details.Keys
      invariant forall r ::
                  r in regs <==> r != norm.blank && exists name :: name !in todo && Holds(details, norm, name, r)
      decreases |todo|
    {
      var name :| name in todo;
      ghost var before, rest := regs, todo;
      todo := todo - {name};
      regs := AddRegs(norm, details[name], regs);
      forall r ensures r in regs <==> r != norm.blank && exists n :: n !in todo && Holds(details, norm, n, r) {
        if r != norm.blank && Carries(details[name], norm, r) { assert name !in todo && Holds(details, norm, name, r); }
        if r in before {
          var n :| n !in rest && Holds(details, norm, n, r);
          assert n !in todo;
        }
        if n :| n !in todo && Holds(details, norm, n, r) {
          assert n == name || n !in rest;
        }
      }
    }
  }

  method AddRegs<C, R(==, !new)>(norm: Norm<R>, e: Entry<C, R>, regs0: set<R>) returns (regs: set<R>)
    ensures forall r :: r in regs <==> r in regs0 || (r != norm.blank && Carries(e, norm, r))
  {
    regs := regs0;
    for i := 0 to |e.registrations|
      invariant forall r ::
                  r in regs <==> || r in regs0
                                 || (r != norm.blank && exists j :: 0 <= j < i && norm.of(e.registrations[j]) == r)
    {
      var r := norm.of(e.registrations[i]);
      if r != norm.blank {
        regs := regs + {r};
      }
    }
  }

  class Import<N(==, !new), G(==), C, R(==, !new)> {
    var details: map<N, Entry<C, R>>
    var names: seq<(N, C)>
    var index: set<R>
    var seen: set<(R, G)>
    var listed: set<N>
    var addedEntries: nat
    var addedRegs: nat
    var mergedRegs: nat

    /** The start of `main`: the index is built from the table. */
    constructor (norm: Norm<R>, details: map<N, Entry<C, R>>, names: seq<(N, C)>)
      ensures this.details == details && this.names == names && seen == {}
      ensures addedEntries == addedRegs == mergedRegs == 0
      ensures Indexed(Now(), norm)
      ensures ListsNames(Now())
    {
      this.details, this.names, seen := details, names, {};
      addedEntries, addedRegs, mergedRegs := 0, 0, 0;
      listed := set i | 0 <= i < |names| :: names[i].0;
      new;
      index := RegsOf(norm, details);
    }

    ghost function Now(): State<N, G, C, R>
      reads this
    {
      State(details, index, seen, names, listed, addedEntries, addedRegs, mergedRegs)
    }

    /** The row loop of `main`. */
    method Run(norm: Norm<R>, rows: seq<Row<N, G, C, R>>)
      modifies this
      ensures Now() == After(old(Now()), norm, rows, |rows|)
    {
      for i := 0 to |rows|
        invariant Now() == After(old(Now()), norm, rows, i)
      {
        TakeRow(norm, rows[i]);
      }
    }

    method TakeRow(norm: Norm<R>, row: Row<N, G, C, R>)
      modifies this
      ensures Now() == Next(old(Now()), norm, row)
    {
      if !row.strict { return; }
      var r := norm.of(row.reg);
      if r == norm.blank || (r, row.group) in seen { return; }
      seen := seen + {(r, row.group)};
      if row.display.NoName? || r in index { return; }
      var name := row.display.name;
      if name in details {
        var regs := details[name].registrations;
        if r !in regs {
          details := details[name := details[name].(registrations := regs + [r])];
          mergedRegs := mergedRegs + 1;
          index := index + {r};
        }
        return;
      }
      details := details[name := Entry(row.category, [r])];
      if name !in listed {
        names := names + [(name, row.category)];
        listed := listed + {name};
        addedEntries := addedEntries + 1;
      }
      addedRegs := addedRegs + 1;
      index := index + {r};
    }
  }

  lemma RawIsCarried<C, R>(e: Entry<C, R>, norm: Norm<R>, r: R)
    requires norm.of(r) == r && !Carries(e, norm, r)
    ensures r !in e.registrations
  {
  }

  /** `name` is given `r`, which nobody held: the row is counted once, and nothing else moves. */
  lemma EnterHolds<N(!new), G, C, R(!new)>(
        s: State<N, G, C, R>, norm: Norm<R>, name: N, category: C, r: R, other: N, x: R)
    requires Indexed(s, norm) && norm.of(r) == r && r != norm.blank && r !in s.index
    ensures var t := Enter(s, name, category, r);
            && (Holds(t.details, norm, other, x) <==> Holds(s.details, norm, other, x) || (other == name && x == r))
            && t.index == s.index + {r} && t.seen == s.seen
            && t.addedRegs + t.mergedRegs == s.addedRegs + s.mergedRegs + 1
            && (other in s.details ==>
              other in t.details && s.details[other].registrations <= t.details[other].registrations)
  {
    var e := EntryOf(s.details, name, category);
    assert !Holds(s.details, norm, name, r);
    GivenCarries(e, norm, r, x);
    RawIsCarried(e, norm, r);
    assert name !in s.details ==> [] + [r] == [r];
  }

  /** The row gives its registration to its name. */
  predicate Enters<N, G(==), C, R(==)>(s: State<N, G, C, R>, norm: Norm<R>, row: Row<N, G, C, R>) {
    Considered(s, norm, row) && row.display.Named? && norm.of(row.reg) !in s.index
  }

  lemma NextHolds<N(!new), G, C, R(!new)>(s: State<N, G, C, R>, norm: Norm<R>, row: Row<N, G, C, R>, other: N, x: R)
    requires Indexed(s, norm) && Stable(norm)
    ensures var t := Next(s, norm, row);
            && (Holds(t.details, norm, other, x) <==>
                  Holds(s.details, norm, other, x)
                    || (Enters(s, norm, row) && other == row.display.name && x == norm.of(row.reg)))
            && (other in s.details ==>
              other in t.details && s.details[other].registrations <= t.details[other].registrations)
  {
    if Enters(s, norm, row) {
      var r := norm.of(row.reg);
      EnterHolds(s.(seen := s.seen + {(r, row.group)}), norm, row.display.name, row.category, r, other, x);
    }
  }

  lemma NextCounts<N(!new), G, C, R(!new)>(s: State<N, G, C, R>, norm: Norm<R>, row: Row<N, G, C, R>)
    requires Indexed(s, norm) && Stable(norm)
    ensures var t := Next(s, norm, row);
            && t.index == (if Enters(s, norm, row) then s.index + {norm.of(row.reg)} else s.index)
            && t.seen == (if Considered(s, norm, row) then s.seen + {(norm.of(row.reg), row.group)} else s.seen)
            && t.addedRegs + t.mergedRegs == s.addedRegs + s.mergedRegs + (if Enters(s, norm, row) then 1 else 0)
  {
    if Enters(s, norm, row) {
      var r := norm.of(row.reg);
      EnterHolds(s.(seen := s.seen + {(r, row.group)}), norm, row.display.name, row.category, r, row.display.name, r);
    }
  }

  lemma NextIndexed<N(!new), G, C, R(!new)>(s: State<N, G, C, R>, norm: Norm<R>, row: Row<N, G, C, R>)
    requires Indexed(s, norm) && Stable(norm)
    ensures Indexed(Next(s, norm, row), norm)
  {
    var t := Next(s, norm, row);
    NextCounts(s, norm, row);
    forall r ensures r in t.index <==> r != norm.blank && SomeoneHolds(t.details, norm, r) {
      if name :| Holds(t.details, norm, name, r) {
        NextHolds(s, norm, row, name, r);
      }
      if name :| Holds(s.details, norm, name, r) {
        NextHolds(s, norm, row, name, r);
        assert Holds(t.details, norm, name, r);
      }
      if Enters(s, norm, row) {
        NextHolds(s, norm, row, row.display.name, norm.of(row.reg));
        assert Holds(t.details, norm, row.display.name, norm.of(row.reg));
      }
    }
  }

  /** Throughout the loop the index is exact, and the two counters together count its growth. */
  lemma {:induction false} IndexStaysExact<N(!new), G, C, R(!new)>(
        s: State<N, G, C, R>, norm: Norm<R>, rows: seq<Row<N, G, C, R>>, n: nat)
    requires Indexed(s, norm) && Stable(norm) && n <= |rows|
    ensures var t := After(s, norm, rows, n);
            && Indexed(t, norm)
            && s.index <= t.index
            && |t.index| - |s.index| == (t.addedRegs + t.mergedRegs) - (s.addedRegs + s.mergedRegs)
  {
    if n > 0 {
      IndexStaysExact(s, norm, rows, n - 1);
      NextIndexed(After(s, norm, rows, n - 1), norm, rows[n - 1]);
      NextCounts(After(s, norm, rows, n - 1), norm, rows[n - 1]);
    }
  }

  /** The list of names and the set of listed names agree. */
  ghost predicate ListsNames<N(!new), G, C, R>(s: State<N, G, C, R>) {
    forall name :: name in s.listed <==> exists i :: 0 <= i < |s.names| && s.names[i].0 == name
  }

  lemma NextGrows<N(!new), G, C, R>(s: State<N, G, C, R>, norm: Norm<R>, row: Row<N, G, C, R>)
    requires ListsNames(s)
    ensures var t := Next(s, norm, row);
            && ListsNames(t) && s.names <= t.names
            && |t.details| - |s.details| == t.addedRegs - s.addedRegs
            && |t.names| - |s.names| == t.addedEntries - s.addedEntries
  {
    NextListsNames(s, norm, row);
    NextCountsNames(s, norm, row);
  }

  lemma NextListsNames<N(!new), G, C, R>(s: State<N, G, C, R>, norm: Norm<R>, row: Row<N, G, C, R>)
    requires ListsNames(s)
    ensures ListsNames(Next(s, norm, row)) && s.names <= Next(s, norm, row).names
  {
    var t := Next(s, norm, row);
    if |t.names| > |s.names| {
      var last := (row.display.name, row.category);
      assert t.names == s.names + [last] && t.names[|s.names|] == last;
      forall i | 0 <= i < |s.names| ensures t.names[i] == s.names[i] { }
    }
  }

  lemma NextCountsNames<N(!new), G, C, R>(s: State<N, G, C, R>, norm: Norm<R>, row: Row<N, G, C, R>)
    ensures var t := Next(s, norm, row);
            && |t.details| - |s.details| == t.addedRegs - s.addedRegs
            && |t.names| - |s.names| == t.addedEntries - s.addedEntries
  {
    var t := Next(s, norm, row);
    if |t.details| != |s.details| {
      assert t.details.Keys == s.details.Keys + {row.display.name};
    } else if Enters(s, norm, row) && row.display.name in s.details {
      assert t.details.Keys == s.details.Keys;
    }
  }

  /** Each counter on its own: `addedRegs` counts the new names in the table, `addedEntries` the new ones in
      the list, which is only given names it does not hold. */
  lemma {:induction false} CountersCount<N(!new), G, C, R>(
        s: State<N, G, C, R>, norm: Norm<R>, rows: seq<Row<N, G, C, R>>, n: nat)
    requires ListsNames(s) && n <= |rows|
    ensures var t := After(s, norm, rows, n);
            && ListsNames(t) && s.names <= t.names
            && |t.details| - |s.details| == t.addedRegs - s.addedRegs
            && |t.names| - |s.names| == t.addedEntries - s.addedEntries
  {
    if n > 0 {
      CountersCount(s, norm, rows, n - 1);
      NextGrows(After(s, norm, rows, n - 1), norm, rows[n - 1]);
    }
  }

  // ---- which rows count, from the rows alone ----

  /** An accepted row with this registration and category is among the first `n`. */
  predicate SeenBefore<N, G(==), C, R(==)>(rows: seq<Row<N, G, C, R>>, norm: Norm<R>, r: R, group: G, n: nat)
    requires n <= |rows|
  {
    n > 0 && ((rows[n - 1].strict && norm.of(rows[n - 1].reg) == r && rows[n - 1].group == group)
              || SeenBefore(rows, norm, r, group, n - 1))
  }

  /** Row `i` offers `r` under a name, and no accepted row before it has its registration and category,
      named or not. */
  predicate Offers<N, G(==), C, R(==)>(rows: seq<Row<N, G, C, R>>, norm: Norm<R>, r: R, i: nat)
    requires i < |rows|
  {
    && rows[i].strict && norm.of(rows[i].reg) == r && r != norm.blank && rows[i].display.Named?
    && !SeenBefore(rows, norm, r, rows[i].group, i)
  }

  predicate Offered<N, G(==), C, R(==)>(rows: seq<Row<N, G, C, R>>, norm: Norm<R>, r: R, n: nat)
    requires n <= |rows|
  {
    n > 0 && (Offers(rows, norm, r, n - 1) || Offered(rows, norm, r, n - 1))
  }

  /** The name of the first row that offers `r`. */
  function FirstOfferer<N, G(==), C, R(==)>(rows: seq<Row<N, G, C, R>>, norm: Norm<R>, r: R, n: nat): N
    requires n <= |rows| && Offered(rows, norm, r, n)
  {
    if Offered(rows, norm, r, n - 1) then FirstOfferer(rows, norm, r, n - 1) else rows[n - 1].display.name
  }

  lemma {:induction false} SeenIsSeenBefore<N(!new), G, C, R(!new)>(
        s: State<N, G, C, R>, norm: Norm<R>, rows: seq<Row<N, G, C, R>>,
        r: R, group: G, n: nat)
    requires Indexed(s, norm) && Stable(norm) && n <= |rows| && s.seen == {} && r != norm.blank
    ensures (r, group) in After(s, norm, rows, n).seen <==> SeenBefore(rows, norm, r, group, n)
  {
    if n > 0 {
      SeenIsSeenBefore(s, norm, rows, r, group, n - 1);
      IndexStaysExact(s, norm, rows, n - 1);
      NextCounts(After(s, norm, rows, n - 1), norm, rows[n - 1]);
    }
  }

  /** Row `n` enters `r` exactly when it offers it and it is not in the index yet. */
  lemma EntersIff<N(!new), G, C, R(!new)>(s: State<N, G, C, R>, norm: Norm<R>, rows: seq<Row<N, G, C, R>>, n: nat)
    requires Indexed(s, norm) && Stable(norm) && n < |rows| && s.seen == {}
    ensures var t, r := After(s, norm, rows, n), norm.of(rows[n].reg);
            Enters(t, norm, rows[n]) <==> Offers(rows, norm, r, n) && r !in t.index
  {
    var r := norm.of(rows[n].reg);
    if r != norm.blank { SeenIsSeenBefore(s, norm, rows, r, rows[n].group, n); }
  }

  /** A registration is in the index at the end exactly when it was at the start or some row offers it. */
  lemma {:induction false} IndexAfter<N(!new), G, C, R(!new)>(
        s: State<N, G, C, R>, norm: Norm<R>, rows: seq<Row<N, G, C, R>>, r: R, n: nat)
    requires Indexed(s, norm) && Stable(norm) && n <= |rows| && s.seen == {}
    ensures r in After(s, norm, rows, n).index <==> r in s.index || Offered(rows, norm, r, n)
  {
    if n > 0 {
      IndexAfter(s, norm, rows, r, n - 1);
      EntersIff(s, norm, rows, n - 1);
      IndexStaysExact(s, norm, rows, n - 1);
      NextCounts(After(s, norm, rows, n - 1), norm, rows[n - 1]);
    }
  }

  /** Who holds `r` at the end: if it was tracked, exactly who held it before; if not, only the name of the
      first row that offers it. */
  lemma {:induction false} HoldersAfter<N(!new), G, C, R(!new)>(
        s: State<N, G, C, R>, norm: Norm<R>, rows: seq<Row<N, G, C, R>>,
        name: N, r: R, n: nat)
    requires Indexed(s, norm) && Stable(norm) && n <= |rows| && s.seen == {} && r != norm.blank
    ensures Holds(After(s, norm, rows, n).details, norm, name, r)
            <==> if r in s.index then Holds(s.details, norm, name, r)
                 else Offered(rows, norm, r, n) && name == FirstOfferer(rows, norm, r, n)
  {
    if n == 0 {
      assert Holds(s.details, norm, name, r) ==> SomeoneHolds(s.details, norm, r);
    } else {
      HoldersAfter(s, norm, rows, name, r, n - 1);
      IndexAfter(s, norm, rows, r, n - 1);
      EntersIff(s, norm, rows, n - 1);
      IndexStaysExact(s, norm, rows, n - 1);
      NextHolds(After(s, norm, rows, n - 1), norm, rows[n - 1], name, r);
    }
  }

  /** No name is dropped and no entry loses or reorders a registration. */
  lemma {:induction false} EntriesOnlyGrow<N(!new), G, C, R(!new)>(
        s: State<N, G, C, R>, norm: Norm<R>, rows: seq<Row<N, G, C, R>>,
        name: N, n: nat)
    requires Indexed(s, norm) && Stable(norm) && n <= |rows| && name in s.details
    ensures var t := After(s, norm, rows, n);
            name in t.details && s.details[name].registrations <= t.details[name].registrations
  {
    if n > 0 {
      EntriesOnlyGrow(s, norm, rows, name, n - 1);
      IndexStaysExact(s, norm, rows, n - 1);
      NextHolds(After(s, norm, rows, n - 1), norm, rows[n - 1], name, norm.blank);
    }
  }
}
