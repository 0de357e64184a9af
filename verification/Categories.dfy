/** What becomes of categories and of whole entries when names are tracked by either script. */
module Categories {
  import opened Registry
  import M = ManualNames
  import I = ImportedRows

  // ---- stealing ----

  /** An unprotected name is dropped exactly if it had registrations and all of them are the stolen one; an entry
      without any stays. Nothing else of an entry changes than its list of registrations. */
  lemma StolenNames<N, C, R>(details: map<N, Entry<C, R>>, norm: Norm<R>, r: R, protected: set<N>, name: N)
    ensures name in Stolen(details, norm, r, protected)
            <==> name in details && (name in protected || details[name].registrations == []
                                     || exists i :: IsOther(details[name], norm, r, i))
    ensures name in Stolen(details, norm, r, protected) ==>
              Stolen(details, norm, r, protected)[name].category == details[name].category
  {
    if name in details {
      var regs := details[name].registrations;
      var kept := Kept(regs, norm, r);
      if kept != [] {
        KeptMembers(regs, norm, r, |regs|, kept[0]);
        assert kept[0] in kept;
        var i :| 0 <= i < |regs| && regs[i] == kept[0];
        assert IsOther(details[name], norm, r, i);
      }
      forall i | IsOther(details[name], norm, r, i) ensures kept != [] {
        KeptMembers(regs, norm, r, |regs|, regs[i]);
      }
    }
  }

  ghost predicate IsOther<C, R>(e: Entry<C, R>, norm: Norm<R>, r: R, i: int) {
    0 <= i < |e.registrations| && norm.of(e.registrations[i]) != r
  }

  // ---- names added by hand ----

  /** The category of the last counted call for `name` among the first `n`. */
  function LastCategory<N(==), C, R(==)>(norm: Norm<R>, calls: seq<M.Call<N, C, R>>, name: N, n: nat): C
    requires n <= |calls| && M.Called(norm, calls, name, n)
  {
    if calls[n - 1].name == name && norm.of(calls[n - 1].reg) != norm.blank then calls[n - 1].category
    else LastCategory(norm, calls, name, n - 1)
  }

  lemma EnsuredCategory<N, C, R>(details: map<N, Entry<C, R>>, norm: Norm<R>, call: M.Call<N, C, R>, protected: set<N>,
                                 name: N)
    ensures var after := M.Ensured(details, norm, call, protected);
            && (norm.of(call.reg) != norm.blank && name == call.name ==>
                  name in after && after[name].category == call.category)
            && (name in after && (name != call.name || norm.of(call.reg) == norm.blank) ==>
                  name in details && after[name].category == details[name].category)
  {
  }

  /** A name in the table at the end has the category of the last call that gave it something, or, if there was none,
      the one it had at the start. */
  lemma {:induction false} CategoryAfter<N, C, R>(
        details: map<N, Entry<C, R>>, norm: Norm<R>, calls: seq<M.Call<N, C, R>>, protected: set<N>, name: N, n: nat)
    requires n <= |calls| && name in M.After(details, norm, calls, protected, n)
    ensures if M.Called(norm, calls, name, n)
            then M.After(details, norm, calls, protected, n)[name].category == LastCategory(norm, calls, name, n)
            else name in details
                 && M.After(details, norm, calls, protected, n)[name].category == details[name].category
  {
    if n > 0 {
      var before, call := M.After(details, norm, calls, protected, n - 1), calls[n - 1];
      EnsuredCategory(before, norm, call, protected, name);
      if name != call.name || norm.of(call.reg) == norm.blank {
        CategoryAfter(details, norm, calls, protected, name, n - 1);
      }
    }
  }

  // ---- imported rows ----

  /** A row changes no category, and a name it adds gets the category the row is shown under, in the table and, if it
      was not listed, in the list. */
  lemma NextCategories<N, G, C, R>(s: I.State<N, G, C, R>, norm: Norm<R>, row: I.Row<N, G, C, R>, name: N)
    ensures var t := I.Next(s, norm, row);
            && (name in s.details ==> name in t.details && t.details[name].category == s.details[name].category)
            && (name in t.details && name !in s.details ==>
                  row.display == I.Named(name) && t.details[name] == Entry(row.category, [norm.of(row.reg)]))
            && (t.names != s.names ==>
                  row.display.Named? && t.names == s.names + [(row.display.name, row.category)]
                  && row.display.name in t.details && row.display.name !in s.details)
  {
  }

  /** Row `i` shows `name` under the category `c`. */
  ghost predicate Shows<N, G, C, R>(rows: seq<I.Row<N, G, C, R>>, name: N, c: C, i: int) {
    0 <= i < |rows| && rows[i].display == I.Named(name) && rows[i].category == c
  }

  /** After any rows a name that was there has its old category, and a new one that of some row that shows it. */
  lemma {:induction false} CategoriesKept<N, G, C, R>(s: I.State<N, G, C, R>, norm: Norm<R>,
                                                      rows: seq<I.Row<N, G, C, R>>, name: N, n: nat)
    requires n <= |rows|
    ensures var t := I.After(s, norm, rows, n);
            && (name in s.details ==> name in t.details && t.details[name].category == s.details[name].category)
            && (name in t.details && name !in s.details ==>
                  exists i :: i < n && Shows(rows, name, t.details[name].category, i))
  {
    if n > 0 {
      CategoriesKept(s, norm, rows, name, n - 1);
      var before := I.After(s, norm, rows, n - 1);
      NextCategories(before, norm, rows[n - 1], name);
      if name in I.Next(before, norm, rows[n - 1]).details && name !in before.details {
        assert Shows(rows, name, rows[n - 1].category, n - 1);
      }
    }
  }
}
