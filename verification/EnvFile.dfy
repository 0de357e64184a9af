/** Rewriting one key of a file of `key=value` lines, over any kind of line. */
module EnvFile {

  datatype Option<+T> = None | Some(value: T)

  /** How lines are read, which of them a rewrite touches, and what it puts there. */
  datatype Format<!L, !K, !V> =
    Format(parse: L -> Option<(K, V)>, isPin: L -> bool, isBlank: L -> bool, pin: K, digest: V, pinLine: L, blank: L)

  /** Both patterns agree on every line: a line is rewritten exactly when it reads as the pin key. */
  ghost predicate Agrees<L(!new), K, V>(f: Format<L, K, V>) {
    && (forall l :: f.isPin(l) <==> f.parse(l).Some? && f.parse(l).value.0 == f.pin)
    && f.parse(f.pinLine) == Some((f.pin, f.digest))
    && f.parse(f.blank) == None
  }

  // ---- reading ----

  function Assign<L, K(==), V>(values: map<K, V>, l: L, f: Format<L, K, V>): map<K, V> {
    match f.parse(l)
    case None => values
    case Some(entry) => values[entry.0 := entry.1]
  }

  /** The values after the first `n` lines; the last assignment of a key wins. */
  function ValuesUpTo<L, K(==), V>(lines: seq<L>, f: Format<L, K, V>, n: nat): map<K, V>
    requires n <= |lines|
  {
    if n == 0 then map[] else Assign(ValuesUpTo(lines, f, n - 1), lines[n - 1], f)
  }

  function Values<L, K(==), V>(lines: seq<L>, f: Format<L, K, V>): map<K, V> { ValuesUpTo(lines, f, |lines|) }

  method ParseLines<L, K(==), V>(lines: seq<L>, f: Format<L, K, V>) returns (values: map<K, V>)
    ensures values == Values(lines, f)
  {
    values := map[];
    for i := 0 to |lines|
      invariant values == ValuesUpTo(lines, f, i)
    {
      var entry := f.parse(lines[i]);
      if entry.None? { continue; }
      values := values[entry.value.0 := entry.value.1];
    }
  }

  /** Line `i` is the last one that assigns `k`. */
  ghost predicate AssignsLast<L, K, V>(lines: seq<L>, f: Format<L, K, V>, k: K, n: nat, i: int)
    requires n <= |lines|
  {
    && 0 <= i < n && f.parse(lines[i]).Some? && f.parse(lines[i]).value.0 == k
    && forall j :: i < j < n && f.parse(lines[j]).Some? ==> f.parse(lines[j]).value.0 != k
  }

  ghost predicate Assigns<L, K, V>(lines: seq<L>, f: Format<L, K, V>, k: K, n: nat)
    requires n <= |lines|
  {
    exists i :: 0 <= i < n && f.parse(lines[i]).Some? && f.parse(lines[i]).value.0 == k
  }

  /** A key has a value exactly if some line assigns it, and the value is the one of the last such line. */
  lemma {:induction false} LastAssignmentWins<L, K, V>(lines: seq<L>, f: Format<L, K, V>, k: K, n: nat)
    requires n <= |lines|
    ensures k in ValuesUpTo(lines, f, n) <==> Assigns(lines, f, k, n)
    ensures forall i :: AssignsLast(lines, f, k, n, i) ==>
              k in ValuesUpTo(lines, f, n) && ValuesUpTo(lines, f, n)[k] == f.parse(lines[i]).value.1
  {
    if n > 0 {
      LastAssignmentWins(lines, f, k, n - 1);
      forall i | AssignsLast(lines, f, k, n, i)
        ensures k in ValuesUpTo(lines, f, n) && ValuesUpTo(lines, f, n)[k] == f.parse(lines[i]).value.1
      {
        if i < n - 1 { assert AssignsLast(lines, f, k, n - 1, i); }
      }
    }
  }

  // ---- rewriting ----

  function Rewritten<L, K, V>(l: L, f: Format<L, K, V>): L { if f.isPin(l) then f.pinLine else l }

  function RewrittenUpTo<L, K, V>(lines: seq<L>, f: Format<L, K, V>, n: nat): (r: seq<L>)
    requires n <= |lines|
    ensures |r| == n
  {
    if n == 0 then [] else RewrittenUpTo(lines, f, n - 1) + [Rewritten(lines[n - 1], f)]
  }

  predicate HasPin<L, K, V>(lines: seq<L>, f: Format<L, K, V>, n: nat)
    requires n <= |lines|
  {
    n > 0 && (f.isPin(lines[n - 1]) || HasPin(lines, f, n - 1))
  }

  /** A file without the pin gets it at the end, behind a blank line unless it ends in one. */
  function Appendix<L, K, V>(lines: seq<L>, f: Format<L, K, V>): seq<L> {
    if HasPin(lines, f, |lines|) then []
    else if lines != [] && !f.isBlank(lines[|lines| - 1]) then [f.blank, f.pinLine]
    else [f.pinLine]
  }

  function Refreshed<L, K, V>(lines: seq<L>, f: Format<L, K, V>): seq<L> {
    RewrittenUpTo(lines, f, |lines|) + Appendix(lines, f)
  }

  lemma {:induction false} NoPinUnchanged<L, K, V>(lines: seq<L>, f: Format<L, K, V>, n: nat)
    requires n <= |lines| && !HasPin(lines, f, n)
    ensures RewrittenUpTo(lines, f, n) == lines[..n]
  {
    if n > 0 {
      NoPinUnchanged(lines, f, n - 1);
      assert lines[..n - 1] + [lines[n - 1]] == lines[..n];
    }
  }

  method ReplaceOrAppend<L, K, V>(lines: seq<L>, f: Format<L, K, V>) returns (updated: seq<L>, replaced: bool)
    ensures updated == Refreshed(lines, f)
    ensures replaced == HasPin(lines, f, |lines|)
  {
    updated, replaced := [], false;
    for i := 0 to |lines|
      invariant updated == RewrittenUpTo(lines, f, i)
      invariant replaced == HasPin(lines, f, i)
    {
      if f.isPin(lines[i]) {
        updated := updated + [f.pinLine];
        replaced := true;
      } else {
        updated := updated + [lines[i]];
      }
    }
    if !replaced {
      NoPinUnchanged(lines, f, |lines|);
      if updated != [] && !f.isBlank(updated[|updated| - 1]) {
        updated := updated + [f.blank];
      }
      updated := updated + [f.pinLine];
    }
  }

  // ---- what a rewrite does to the values ----

  lemma {:induction false} ValuesPrefix<L, K, V>(lines: seq<L>, more: seq<L>, f: Format<L, K, V>, n: nat)
    requires n <= |lines|
    ensures ValuesUpTo(lines + more, f, n) == ValuesUpTo(lines, f, n)
  {
    if n > 0 {
      ValuesPrefix(lines, more, f, n - 1);
      assert (lines + more)[n - 1] == lines[n - 1];
    }
  }

  lemma ValuesSnoc<L, K, V>(lines: seq<L>, l: L, f: Format<L, K, V>)
    ensures Values(lines + [l], f) == Assign(Values(lines, f), l, f)
  {
    ValuesPrefix(lines, [l], f, |lines|);
    assert (lines + [l])[|lines|] == l;
  }

  /** The rewritten lines read like the old ones, but for the pin. */
  lemma {:induction false} RewrittenValues<L(!new), K, V>(lines: seq<L>, f: Format<L, K, V>, n: nat)
    requires n <= |lines| && Agrees(f)
    ensures Values(RewrittenUpTo(lines, f, n), f)
            == if HasPin(lines, f, n) then ValuesUpTo(lines, f, n)[f.pin := f.digest] else ValuesUpTo(lines, f, n)
  {
    if n > 0 {
      RewrittenValues(lines, f, n - 1);
      ValuesSnoc(RewrittenUpTo(lines, f, n - 1), Rewritten(lines[n - 1], f), f);
      AssignRewritten(ValuesUpTo(lines, f, n - 1), lines[n - 1], HasPin(lines, f, n - 1), f);
    }
  }

  function Pinned<L, K(==), V>(values: map<K, V>, pinned: bool, f: Format<L, K, V>): map<K, V> {
    if pinned then values[f.pin := f.digest] else values
  }

  lemma AssignRewritten<L(!new), K, V>(values: map<K, V>, l: L, pinned: bool, f: Format<L, K, V>)
    requires Agrees(f)
    ensures Assign(Pinned(values, pinned, f), Rewritten(l, f), f)
            == Pinned(Assign(values, l, f), pinned || f.isPin(l), f)
  {
  }

  /** Reading the refreshed lines gives the digest for the pin and the old value for every other key. */
  lemma RefreshedValues<L(!new), K, V>(lines: seq<L>, f: Format<L, K, V>)
    requires Agrees(f)
    ensures Values(Refreshed(lines, f), f) == Values(lines, f)[f.pin := f.digest]
  {
    var same := RewrittenUpTo(lines, f, |lines|);
    RewrittenValues(lines, f, |lines|);
    var tail := Appendix(lines, f);
    if tail == [] {
      assert Refreshed(lines, f) == same;
    } else if tail == [f.pinLine] {
      ValuesSnoc(same, f.pinLine, f);
    } else {
      ValuesSnoc(same, f.blank, f);
      ValuesSnoc(same + [f.blank], f.pinLine, f);
      assert same + [f.blank] + [f.pinLine] == same + tail;
    }
  }

  // ---- what it does to the lines ----

  function OthersUpTo<L, K, V>(lines: seq<L>, f: Format<L, K, V>, n: nat): seq<L>
    requires n <= |lines|
  {
    if n == 0 then [] else OthersUpTo(lines, f, n - 1) + if f.isPin(lines[n - 1]) then [] else [lines[n - 1]]
  }

  /** The lines that are not the pin, in their order. */
  function Others<L, K, V>(lines: seq<L>, f: Format<L, K, V>): seq<L> { OthersUpTo(lines, f, |lines|) }

  lemma {:induction false} OthersPrefix<L, K, V>(lines: seq<L>, more: seq<L>, f: Format<L, K, V>, n: nat)
    requires n <= |lines|
    ensures OthersUpTo(lines + more, f, n) == OthersUpTo(lines, f, n)
  {
    if n > 0 {
      OthersPrefix(lines, more, f, n - 1);
      assert (lines + more)[n - 1] == lines[n - 1];
    }
  }

  lemma OthersSnoc<L, K, V>(lines: seq<L>, l: L, f: Format<L, K, V>)
    ensures Others(lines + [l], f) == Others(lines, f) + if f.isPin(l) then [] else [l]
  {
    OthersPrefix(lines, [l], f, |lines|);
    assert (lines + [l])[|lines|] == l;
  }

  lemma {:induction false} RewrittenOthers<L(!new), K, V>(lines: seq<L>, f: Format<L, K, V>, n: nat)
    requires n <= |lines| && Agrees(f)
    ensures Others(RewrittenUpTo(lines, f, n), f) == OthersUpTo(lines, f, n)
  {
    if n > 0 {
      RewrittenOthers(lines, f, n - 1);
      OthersSnoc(RewrittenUpTo(lines, f, n - 1), Rewritten(lines[n - 1], f), f);
    }
  }

  /** Every other line keeps its content and its place among the others; at most one blank line is added,
      at the end. */
  lemma RefreshedOthers<L(!new), K, V>(lines: seq<L>, f: Format<L, K, V>)
    requires Agrees(f)
    ensures Others(Refreshed(lines, f), f)
            == Others(lines, f) + if Appendix(lines, f) == [f.blank, f.pinLine] then [f.blank] else []
  {
    var same := RewrittenUpTo(lines, f, |lines|);
    RewrittenOthers(lines, f, |lines|);
    var tail := Appendix(lines, f);
    if tail == [] {
      assert Refreshed(lines, f) == same;
    } else if tail == [f.pinLine] {
      OthersSnoc(same, f.pinLine, f);
    } else {
      OthersSnoc(same, f.blank, f);
      OthersSnoc(same + [f.blank], f.pinLine, f);
      assert same + [f.blank] + [f.pinLine] == same + tail;
    }
  }

  lemma {:induction false} HasPinAt<L, K, V>(lines: seq<L>, f: Format<L, K, V>, i: nat, n: nat)
    requires i < n <= |lines| && f.isPin(lines[i])
    ensures HasPin(lines, f, n)
  {
    if i < n - 1 { HasPinAt(lines, f, i, n - 1); }
  }

  lemma {:induction false} PinWhere<L, K, V>(lines: seq<L>, f: Format<L, K, V>, n: nat) returns (i: nat)
    requires n <= |lines| && HasPin(lines, f, n)
    ensures i < n && f.isPin(lines[i])
  {
    if f.isPin(lines[n - 1]) { i := n - 1; } else { i := PinWhere(lines, f, n - 1); }
  }

  lemma {:induction false} RewrittenAt<L, K, V>(lines: seq<L>, f: Format<L, K, V>, i: nat, n: nat)
    requires i < n <= |lines|
    ensures RewrittenUpTo(lines, f, n)[i] == Rewritten(lines[i], f)
  {
    if i < n - 1 { RewrittenAt(lines, f, i, n - 1); }
  }

  /** Every line is already what a rewrite would make of it. */
  ghost predicate Settled<L, K, V>(lines: seq<L>, f: Format<L, K, V>) {
    forall i :: 0 <= i < |lines| ==> Rewritten(lines[i], f) == lines[i]
  }

  lemma {:induction false} SettledUnchanged<L, K, V>(lines: seq<L>, f: Format<L, K, V>, n: nat)
    requires n <= |lines| && Settled(lines, f)
    ensures RewrittenUpTo(lines, f, n) == lines[..n]
  {
    if n > 0 {
      SettledUnchanged(lines, f, n - 1);
      assert lines[..n - 1] + [lines[n - 1]] == lines[..n];
    }
  }

  lemma RefreshedIsSettled<L(!new), K, V>(lines: seq<L>, f: Format<L, K, V>)
    requires Agrees(f)
    ensures Settled(Refreshed(lines, f), f)
    ensures HasPin(Refreshed(lines, f), f, |Refreshed(lines, f)|)
  {
    var same, out := RewrittenUpTo(lines, f, |lines|), Refreshed(lines, f);
    forall i | 0 <= i < |out| ensures Rewritten(out[i], f) == out[i] {
      if i < |lines| { RewrittenAt(lines, f, i, |lines|); }
    }
    if HasPin(lines, f, |lines|) {
      var i := PinWhere(lines, f, |lines|);
      RewrittenAt(lines, f, i, |lines|);
      HasPinAt(out, f, i, |out|);
    } else {
      HasPinAt(out, f, |out| - 1, |out|);
    }
  }

  /** A second rewrite changes nothing. */
  lemma RefreshIsIdempotent<L(!new), K, V>(lines: seq<L>, f: Format<L, K, V>)
    requires Agrees(f)
    ensures Refreshed(Refreshed(lines, f), f) == Refreshed(lines, f)
  {
    var out := Refreshed(lines, f);
    RefreshedIsSettled(lines, f);
    SettledUnchanged(out, f, |out|);
    assert out[..|out|] == out;
  }

  // ---- lines and text ----

  datatype Scan<T> = Scan(lines: seq<seq<T>>, current: seq<T>)

  /** `splitlines`, after the first `n` characters. */
  function ScanUpTo<T>(text: seq<T>, isBreak: T -> bool, n: nat): Scan<T>
    requires n <= |text|
  {
    if n == 0 then Scan([], [])
    else
      var s := ScanUpTo(text, isBreak, n - 1);
      if isBreak(text[n - 1]) then Scan(s.lines + [s.current], []) else Scan(s.lines, s.current + [text[n - 1]])
  }

  function SplitLines<T>(text: seq<T>, isBreak: T -> bool): seq<seq<T>> {
    var s := ScanUpTo(text, isBreak, |text|);
    if s.current == [] then s.lines else s.lines + [s.current]
  }

  /** `newline.join(lines) + newline` */
  function JoinLines<T>(lines: seq<seq<T>>, newline: T): seq<T> {
    if |lines| <= 1 then (if lines == [] then [] else lines[0]) + [newline]
    else JoinLines(lines[..|lines| - 1], newline) + lines[|lines| - 1] + [newline]
  }

  ghost predicate NoBreaks<T>(s: seq<T>, isBreak: T -> bool) { forall i :: 0 <= i < |s| ==> !isBreak(s[i]) }

  lemma {:induction false} ScanPrefix<T>(text: seq<T>, more: seq<T>, isBreak: T -> bool, n: nat)
    requires n <= |text|
    ensures ScanUpTo(text + more, isBreak, n) == ScanUpTo(text, isBreak, n)
  {
    if n > 0 {
      ScanPrefix(text, more, isBreak, n - 1);
      assert (text + more)[n - 1] == text[n - 1];
    }
  }

  function ScanAll<T>(text: seq<T>, isBreak: T -> bool): Scan<T> { ScanUpTo(text, isBreak, |text|) }

  lemma ScanSnoc<T>(text: seq<T>, c: T, isBreak: T -> bool)
    ensures var s := ScanAll(text, isBreak);
            ScanAll(text + [c], isBreak)
            == if isBreak(c) then Scan(s.lines + [s.current], []) else Scan(s.lines, s.current + [c])
  {
    ScanPrefix(text, [c], isBreak, |text|);
    assert (text + [c])[|text|] == c;
  }

  lemma {:induction false} ScanLine<T>(text: seq<T>, line: seq<T>, isBreak: T -> bool, n: nat)
    requires n <= |line| && NoBreaks(line, isBreak)
    ensures var s := ScanAll(text, isBreak);
            ScanAll(text + line[..n], isBreak) == Scan(s.lines, s.current + line[..n])
  {
    var s := ScanAll(text, isBreak);
    if n == 0 {
      assert text + line[..0] == text && s.current + line[..0] == s.current;
    } else {
      ScanLine(text, line, isBreak, n - 1);
      TakeSnoc(text, line, n - 1);
      TakeSnoc(s.current, line, n - 1);
      ScanSnoc(text + line[..n - 1], line[n - 1], isBreak);
    }
  }

  lemma TakeSnoc<T>(front: seq<T>, line: seq<T>, n: nat)
    requires n < |line|
    ensures front + line[..n + 1] == front + line[..n] + [line[n]]
  {
  }

  lemma ScanWholeLine<T>(text: seq<T>, line: seq<T>, newline: T, isBreak: T -> bool)
    requires NoBreaks(line, isBreak) && isBreak(newline) && ScanAll(text, isBreak).current == []
    ensures ScanAll(text + line + [newline], isBreak) == Scan(ScanAll(text, isBreak).lines + [line], [])
  {
    ScanLine(text, line, isBreak, |line|);
    assert line[..|line|] == line && [] + line == line;
    ScanSnoc(text + line, newline, isBreak);
  }

  lemma {:induction false} ScanJoined<T>(lines: seq<seq<T>>, newline: T, isBreak: T -> bool)
    requires lines != [] && isBreak(newline) && forall i :: 0 <= i < |lines| ==> NoBreaks(lines[i], isBreak)
    ensures ScanAll(JoinLines(lines, newline), isBreak) == Scan(lines, [])
  {
    if |lines| == 1 {
      ScanWholeLine([], lines[0], newline, isBreak);
      assert [] + lines[0] + [newline] == lines[0] + [newline];
      assert [] + [lines[0]] == lines;
    } else {
      var init := lines[..|lines| - 1];
      ScanJoined(init, newline, isBreak);
      ScanWholeLine(JoinLines(init, newline), lines[|lines| - 1], newline, isBreak);
      assert init + [lines[|lines| - 1]] == lines;
    }
  }

  /** Joining break-free lines and splitting the text gives the lines back. */
  lemma SplitJoined<T>(lines: seq<seq<T>>, newline: T, isBreak: T -> bool)
    requires lines != [] && isBreak(newline) && forall i :: 0 <= i < |lines| ==> NoBreaks(lines[i], isBreak)
    ensures SplitLines(JoinLines(lines, newline), isBreak) == lines
  {
    ScanJoined(lines, newline, isBreak);
  }

  lemma {:induction false} ScannedHaveNoBreaks<T>(text: seq<T>, isBreak: T -> bool, n: nat)
    requires n <= |text|
    ensures NoBreaks(ScanUpTo(text, isBreak, n).current, isBreak)
    ensures forall i :: 0 <= i < |ScanUpTo(text, isBreak, n).lines| ==>
            NoBreaks(ScanUpTo(text, isBreak, n).lines[i], isBreak)
  {
    if n > 0 { ScannedHaveNoBreaks(text, isBreak, n - 1); }
  }

  lemma SplitHaveNoBreaks<T>(text: seq<T>, isBreak: T -> bool)
    ensures forall i :: 0 <= i < |SplitLines(text, isBreak)| ==> NoBreaks(SplitLines(text, isBreak)[i], isBreak)
  {
    ScannedHaveNoBreaks(text, isBreak, |text|);
  }

  /** A character that is in no line and is not the newline is not in the text. */
  lemma {:induction false} JoinLacks<T>(lines: seq<seq<T>>, newline: T, c: T)
    requires c != newline && forall i :: 0 <= i < |lines| ==> c !in lines[i]
    ensures c !in JoinLines(lines, newline)
  {
    if |lines| > 1 { JoinLacks(lines[..|lines| - 1], newline, c); }
  }

  /** A refresh puts no break into a line. */
  lemma RefreshedHaveNoBreaks<T(!new), K, V>(lines: seq<seq<T>>, f: Format<seq<T>, K, V>, isBreak: T -> bool)
    requires forall i :: 0 <= i < |lines| ==> NoBreaks(lines[i], isBreak)
    requires NoBreaks(f.pinLine, isBreak) && NoBreaks(f.blank, isBreak)
    ensures Refreshed(lines, f) != []
    ensures forall i :: 0 <= i < |Refreshed(lines, f)| ==> NoBreaks(Refreshed(lines, f)[i], isBreak)
  {
    var out := Refreshed(lines, f);
    forall i | 0 <= i < |out| ensures NoBreaks(out[i], isBreak) {
      if i < |lines| { RewrittenAt(lines, f, i, |lines|); }
    }
  }
}
