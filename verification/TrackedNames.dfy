/** The two import scripts on the program's own strings. */
module TrackedNames {
  import opened Registry
  import opened Text
  import ImportedRows
  import ManualNames

  /** `norm_reg` */
  function NormReg(s: string): string { Upper(Strip(s)) }

  const REG: Norm<string> := Norm(NormReg, "")

  /** The four categories whose rows are imported. */
  const STRICT_CATS: set<string> := {"Don't you know who I am?", "Oligarch", "Royal Aircraft", "Football"}

  /** A line of the plane-alert tables. The name and the category it is shown under are worked out from its
      other columns. */
  datatype Line = Line(category: string, registration: string, display: ImportedRows.Display<string>, shownAs: string)

  function RowOf(l: Line): ImportedRows.Row<string, string, string, string> {
    var group := Strip(l.category);
    ImportedRows.Row(group, group in STRICT_CATS, Strip(l.registration), l.display, l.shownAs)
  }

  function RowsOf(lines: seq<Line>): (rows: seq<ImportedRows.Row<string, string, string, string>>)
    ensures |rows| == |lines|
  {
    seq(|lines|, i requires 0 <= i < |lines| => RowOf(lines[i]))
  }

  lemma NormRegStable(s: string)
    ensures NormReg(NormReg(s)) == NormReg(s)
  {
    UpperStable(Strip(s));
    if Strip(s) == "" { assert Upper("") == ""; }
  }

  /** Normalising a registration twice is normalising it once, so raw and normalised spellings meet. */
  lemma NormIsStable()
    ensures Stable(REG)
  {
    forall s: string ensures REG.of(REG.of(s)) == REG.of(s) { NormRegStable(s); }
  }

  type Details = map<string, Entry<string, string>>

  /** The row loop on real rows: `reg` ends with exactly its old holders, or, if it had none, with the name
      of the first row that offers it and nobody else. */
  lemma ImportKeepsOwners(s: ImportedRows.State<string, string, string, string>, lines: seq<Line>, name: string,
                          reg: string)
    requires ImportedRows.Indexed(s, REG) && s.seen == {} && reg != ""
    ensures var rows := RowsOf(lines);
            Holds(ImportedRows.After(s, REG, rows, |rows|).details, REG, name, reg)
            <==> if reg in s.index then Holds(s.details, REG, name, reg)
                 else
                   && ImportedRows.Offered(rows, REG, reg, |rows|)
                   && name == ImportedRows.FirstOfferer(rows, REG, reg, |rows|)
  {
    NormIsStable();
    ImportedRows.HoldersAfter(s, REG, RowsOf(lines), name, reg, |lines|);
  }

  /** The manual loop on real names: a registration given by hand ends with the last name it was given to, with
      the baseline names that held it or were given it, and with nobody else. */
  lemma ManualOwners(details: Details, calls: seq<ManualNames.Call<string, string, string>>, baseline: set<string>,
                     name: string, reg: string)
    requires reg != "" && ManualNames.Touched(REG, calls, reg, |calls|)
    ensures Holds(ManualNames.After(details, REG, calls, baseline, |calls|), REG, name, reg)
            <==> || ManualNames.LastAssigned(REG, calls, name, reg, |calls|)
                 || (name in baseline
                   && (Holds(details, REG, name, reg) || ManualNames.Assigned(REG, calls, name, reg, |calls|)))
  {
    NormIsStable();
    ManualNames.HoldersAfter(details, REG, calls, baseline, name, reg, |calls|);
  }
}
