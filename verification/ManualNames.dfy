/** Adding names by hand: `ensure_entry` and the manual loop of scripts/finalize_plane_alert_import.py. */
module ManualNames {
  import opened Registry

  datatype Call<N, C, R> = Call(name: N, category: C, reg: R)

  /** `ensure_entry` on the details. */
  function Ensured<N(==), C, R(==)>(
        details: map<N, Entry<C, R>>, norm: Norm<R>, call: Call<N, C, R>, protected: set<N>): map<N, Entry<C, R>> {
    var r := norm.of(call.reg);
    if r == norm.blank then details
    else
      var left := Stolen(details, norm, r, protected);
      left[call.name := Given(EntryOf(left, call.name, call.category).(category := call.category), norm, r)]
  }

  predicate Listed<N(==), C>(names: seq<(N, C)>, name: N) { exists i :: 0 <= i < |names| && names[i].0 == name }

  function ListedAfter<N(==), C>(names: seq<(N, C)>, name: N, category: C): seq<(N, C)> {
    if Listed(names, name) then names else names + [(name, category)]
  }

  class Table<N(==), C, R(==)> {
    var details: map<N, Entry<C, R>>
    var names: seq<(N, C)>

    method EnsureEntry(norm: Norm<R>, call: Call<N, C, R>, protected: set<N>) returns (added: bool)
      modifies this
      ensures added == (norm.of(call.reg) != norm.blank)
      ensures details == Ensured(old(details), norm, call, protected)
      ensures names == if added then ListedAfter(old(names), call.name, call.category) else old(names)
    {
      var r := norm.of(call.reg);
      if r == norm.blank { return false; }
      details := StealReg(details, norm, r, protected);
      var entry := EntryOf(details, call.name, call.category);
      entry := entry.(category := call.category);
      if !Carries(entry, norm, r) {
        entry := entry.(registrations := entry.registrations + [r]);
      }
      details := details[call.name := entry];
      if !Listed(names, call.name) {
        names := names + [(call.name, call.category)];
      }
      added := true;
    }

    /** The manual loop and the check after it: `lost` is the error the program raises. */
    method AddAll(norm: Norm<R>, calls: seq<Call<N, C, R>>, baseline: set<N>) returns (added: nat, lost: bool)
      modifies this
      ensures details == After(old(details), norm, calls, baseline, |calls|)
      ensures lost <==> exists name :: name in baseline && name !in details
      ensures added == CountAdded(norm, calls, |calls|)
      ensures names == NamesAfter(old(names), norm, calls, |calls|)
    {
      added := 0;
      for i := 0 to |calls|
        invariant details == After(old(details), norm, calls, baseline, i)
        invariant names == NamesAfter(old(names), norm, calls, i)
        invariant added == CountAdded(norm, calls, i)
      {
        var ok := EnsureEntry(norm, calls[i], baseline);
        if ok { added := added + 1; }
      }
      lost := exists name :: name in baseline && name !in details;
    }
  }

  function CountAdded<N, C, R(==)>(norm: Norm<R>, calls: seq<Call<N, C, R>>, n: nat): nat
    requires n <= |calls|
  {
    if n == 0 then 0 else CountAdded(norm, calls, n - 1) + if norm.of(calls[n - 1].reg) != norm.blank then 1 else 0
  }

  function After<N(==), C, R(==)>(
        details: map<N, Entry<C, R>>, norm: Norm<R>, calls: seq<Call<N, C, R>>, protected: set<N>, n: nat)
      : map<N, Entry<C, R>>
    requires n <= |calls|
  {
    if n == 0 then details else Ensured(After(details, norm, calls, protected, n - 1), norm, calls[n - 1], protected)
  }

  function NamesAfter<N(==), C, R(==)>(
        names: seq<(N, C)>, norm: Norm<R>, calls: seq<Call<N, C, R>>, n: nat): seq<(N, C)>
    requires n <= |calls|
  {
    if n == 0 then names
    else
      var before := NamesAfter(names, norm, calls, n - 1);
      if norm.of(calls[n - 1].reg) == norm.blank then before
      else ListedAfter(before, calls[n - 1].name, calls[n - 1].category)
  }

  /** The list of names only grows at its end, and holds at the end exactly the names it held and those called. */
  lemma {:induction false} NamesListed<N, C, R>(
        names: seq<(N, C)>, norm: Norm<R>, calls: seq<Call<N, C, R>>, name: N, n: nat)
    requires n <= |calls|
    ensures names <= NamesAfter(names, norm, calls, n)
    ensures Listed(NamesAfter(names, norm, calls, n), name) <==> Listed(names, name) || Called(norm, calls, name, n)
  {
    if n > 0 {
      NamesListed(names, norm, calls, name, n - 1);
      ListedSnoc(NamesAfter(names, norm, calls, n - 1), calls[n - 1].name, calls[n - 1].category, name);
    }
  }

  lemma ListedSnoc<N, C>(names: seq<(N, C)>, added: N, category: C, name: N)
    ensures Listed(ListedAfter(names, added, category), name) <==> Listed(names, name) || name == added
  {
    var more := names + [(added, category)];
    assert more[|names|].0 == added;
    if i :| 0 <= i < |names| && names[i].0 == name { assert more[i].0 == name; }
  }

  // ---- who holds what ----

  /** One call: `r` goes to the name called, protected holders keep it, all others lose it; every other
      registration stays with whoever holds it. */
  lemma EnsuredHolds<N, C, R(!new)>(
        details: map<N, Entry<C, R>>, norm: Norm<R>, call: Call<N, C, R>, protected: set<N>, name: N, x: R)
    requires Stable(norm) && norm.of(call.reg) != norm.blank
    ensures Holds(Ensured(details, norm, call, protected), norm, name, x)
            <==> if x == norm.of(call.reg) then name == call.name
              || (name in protected && Holds(details, norm, name, x))
                 else Holds(details, norm, name, x)
  {
    var r := norm.of(call.reg);
    StolenHolds(details, norm, r, protected, name, x);
    if name == call.name {
      GivenCarries(EntryOf(Stolen(details, norm, r, protected), name, call.category).(category := call.category),
                   norm, r, x);
    }
  }

  /** Some call among the first `n` gives `r` to `name`. */
  predicate Assigned<N(==), C, R(==)>(norm: Norm<R>, calls: seq<Call<N, C, R>>, name: N, r: R, n: nat)
    requires n <= |calls|
  {
    n > 0 && ((calls[n - 1].name == name && norm.of(calls[n - 1].reg) == r) || Assigned(norm, calls, name, r, n - 1))
  }

  /** The last call among the first `n` that gives `r` away gives it to `name`. */
  predicate LastAssigned<N(==), C, R(==)>(norm: Norm<R>, calls: seq<Call<N, C, R>>, name: N, r: R, n: nat)
    requires n <= |calls|
  {
    n > 0 && if norm.of(calls[n - 1].reg) == r then calls[n - 1].name == name
      else LastAssigned(norm, calls, name, r, n - 1)
  }

  predicate Touched<N, C, R(==)>(norm: Norm<R>, calls: seq<Call<N, C, R>>, r: R, n: nat)
    requires n <= |calls|
  {
    n > 0 && (norm.of(calls[n - 1].reg) == r || Touched(norm, calls, r, n - 1))
  }

  /** After any calls: a registration nobody was given is where it was; any other is held by its last
      assignee, by the protected names that held it or were given it, and by no one else. */
  lemma {:induction false} HoldersAfter<N, C, R(!new)>(
        details: map<N, Entry<C, R>>, norm: Norm<R>, calls: seq<Call<N, C, R>>,
        protected: set<N>, name: N, r: R, n: nat)
    requires Stable(norm) && n <= |calls| && r != norm.blank
    ensures Holds(After(details, norm, calls, protected, n), norm, name, r)
            <==> if !Touched(norm, calls, r, n) then Holds(details, norm, name, r)
                 else || LastAssigned(norm, calls, name, r, n)
                      || (name in protected && (Holds(details, norm, name, r) || Assigned(norm, calls, name, r, n)))
  {
    if n > 0 {
      HoldersAfter(details, norm, calls, protected, name, r, n - 1);
      if norm.of(calls[n - 1].reg) != norm.blank {
        EnsuredHolds(After(details, norm, calls, protected, n - 1), norm, calls[n - 1], protected, name, r);
      }
      LastIsAssigned(norm, calls, name, r, n - 1);
      if !Touched(norm, calls, r, n - 1) { UntouchedIsUnassigned(norm, calls, name, r, n - 1); }
    }
  }

  lemma {:induction false} LastIsAssigned<N, C, R>(norm: Norm<R>, calls: seq<Call<N, C, R>>, name: N, r: R, n: nat)
    requires n <= |calls|
    ensures LastAssigned(norm, calls, name, r, n) ==> Assigned(norm, calls, name, r, n)
  {
    if n > 0 { LastIsAssigned(norm, calls, name, r, n - 1); }
  }

  lemma {:induction false} UntouchedIsUnassigned<N, C, R>(
        norm: Norm<R>, calls: seq<Call<N, C, R>>, name: N, r: R, n: nat)
    requires n <= |calls| && !Touched(norm, calls, r, n)
    ensures !Assigned(norm, calls, name, r, n) && !LastAssigned(norm, calls, name, r, n)
  {
    if n > 0 { UntouchedIsUnassigned(norm, calls, name, r, n - 1); }
  }

  // ---- protected names ----

  lemma EnsuredProtects<N, C, R>(
        details: map<N, Entry<C, R>>, norm: Norm<R>, call: Call<N, C, R>, protected: set<N>, name: N)
    requires name in protected
    ensures var after := Ensured(details, norm, call, protected);
            && (name in after <==> name in details || (name == call.name && norm.of(call.reg) != norm.blank))
            && (name in details ==> details[name].registrations <= after[name].registrations)
  {
  }

  /** Some call among the first `n` gives `name` a registration. */
  predicate Called<N(==), C, R(==)>(norm: Norm<R>, calls: seq<Call<N, C, R>>, name: N, n: nat)
    requires n <= |calls|
  {
    n > 0 && ((calls[n - 1].name == name && norm.of(calls[n - 1].reg) != norm.blank)
      || Called(norm, calls, name, n - 1))
  }

  /** A protected name keeps all its registrations, in place; and it is in the table at the end exactly
      when it was at the start or was called. */
  lemma {:induction false} ProtectedAfter<N, C, R>(
        details: map<N, Entry<C, R>>, norm: Norm<R>, calls: seq<Call<N, C, R>>,
        protected: set<N>, name: N, n: nat)
    requires name in protected && n <= |calls|
    ensures var after := After(details, norm, calls, protected, n);
            && (name in after <==> name in details || Called(norm, calls, name, n))
            && (name in details ==> details[name].registrations <= after[name].registrations)
  {
    if n > 0 {
      ProtectedAfter(details, norm, calls, protected, name, n - 1);
      EnsuredProtects(After(details, norm, calls, protected, n - 1), norm, calls[n - 1], protected, name);
    }
  }

  /** The error after the loop is raised exactly when a baseline name was missing from the start and
      is not among those added by hand. */
  lemma LostIff<N(!new), C, R>(details: map<N, Entry<C, R>>, norm: Norm<R>, calls: seq<Call<N, C, R>>, baseline: set<N>)
    ensures (exists name :: name in baseline && name !in After(details, norm, calls, baseline, |calls|))
            <==> exists name :: name in baseline && name !in details && !Called(norm, calls, name, |calls|)
  {
    forall name | name in baseline
      ensures name in After(details, norm, calls, baseline, |calls|)
              <==> name in details || Called(norm, calls, name, |calls|)
    {
      ProtectedAfter(details, norm, calls, baseline, name, |calls|);
    }
  }
}
