/** Normalized names as token lists, and the digit runs that identify them. */
module Names {
  type Name = seq<string>

  predicate IsDigit(c: char) { '0' <= c <= '9' }

  /** The maximal runs of digits, in order. */
  function Runs(s: string): (r: seq<string>)
    ensures s != [] && IsDigit(s[0]) ==> r != []
  {
    if s == [] then []
    else if !IsDigit(s[0]) then Runs(s[1..])
    else
      var rest := Runs(s[1..]);
      if |s| > 1 && IsDigit(s[1]) then [[s[0]] + rest[0]] + rest[1..] else [[s[0]]] + rest
  }

  predicate AllDigits(s: string) { forall i | 0 <= i < |s| :: IsDigit(s[i]) }

  predicate NoDigits(s: string) { forall i | 0 <= i < |s| :: !IsDigit(s[i]) }

  /** Gaps and runs in turn, starting and ending with a gap. */
  function Woven(gaps: seq<string>, runs: seq<string>): string
    requires |gaps| == |runs| + 1
  {
    if runs == [] then gaps[0] else gaps[0] + (runs[0] + Woven(gaps[1..], runs[1..]))
  }

  /** The runs are non-empty and all digits; the gaps have none, and those between runs are not empty. */
  predicate Separates(gaps: seq<string>, runs: seq<string>)
  {
    && |gaps| == |runs| + 1
    && (forall i | 0 <= i < |runs| :: runs[i] != [] && AllDigits(runs[i]))
    && (forall i | 0 <= i < |gaps| :: NoDigits(gaps[i]))
    && (forall i | 0 < i < |runs| :: gaps[i] != [])
  }

  /** A woven string starts with a digit exactly when its first gap is empty and a run follows. */
  lemma FirstGap(gaps: seq<string>, runs: seq<string>)
    requires Separates(gaps, runs) && Woven(gaps, runs) != []
    ensures IsDigit(Woven(gaps, runs)[0]) <==> gaps[0] == [] && runs != []
  {
    if gaps[0] == [] && runs != [] {
      assert Woven(gaps, runs)[0] == runs[0][0];
    } else {
      assert Woven(gaps, runs)[0] == gaps[0][0];
    }
  }

  lemma WidenGap(c: char, gaps: seq<string>, runs: seq<string>)
    requires Separates(gaps, runs) && !IsDigit(c)
    ensures
      var wider := gaps[0 := [c] + gaps[0]];
      Separates(wider, runs) && Woven(wider, runs) == [c] + Woven(gaps, runs)
  {
    var wider := gaps[0 := [c] + gaps[0]];
    assert wider[1..] == gaps[1..];
    if runs != [] {
      Regroups([c], gaps[0], runs[0] + Woven(gaps[1..], runs[1..]));
    }
  }

  lemma WidenRun(c: char, gaps: seq<string>, runs: seq<string>)
    requires Separates(gaps, runs) && IsDigit(c) && runs != [] && gaps[0] == []
    ensures
      var wider := [[c] + runs[0]] + runs[1..];
      Separates(gaps, wider) && Woven(gaps, wider) == [c] + Woven(gaps, runs)
  {
    var wider := [[c] + runs[0]] + runs[1..];
    var rest := Woven(gaps[1..], runs[1..]);
    assert wider[1..] == runs[1..];
    assert Woven(gaps, runs) == [] + (runs[0] + rest) == runs[0] + rest;
    assert Woven(gaps, wider) == [] + ([c] + runs[0] + rest) == [c] + runs[0] + rest;
    Regroups([c], runs[0], rest);
  }

  lemma NewRun(c: char, gaps: seq<string>, runs: seq<string>)
    requires Separates(gaps, runs) && IsDigit(c) && (runs != [] ==> gaps[0] != [])
    ensures
      var more := [[]] + gaps;
      Separates(more, [[c]] + runs) && Woven(more, [[c]] + runs) == [c] + Woven(gaps, runs)
  {
    assert ([[]] + gaps)[1..] == gaps && ([[c]] + runs)[1..] == runs;
  }

  lemma Regroups(a: string, b: string, c: string)
    ensures a + b + c == a + (b + c)
  {
  }

  /** The runs are exactly the maximal digit runs: the string is they and the digit-free gaps
      between them, in turn. */
  lemma {:induction false} RunsAreMaximal(s: string) returns (gaps: seq<string>)
    ensures Separates(gaps, Runs(s)) && Woven(gaps, Runs(s)) == s
  {
    if s == [] {
      gaps := [[]];
    } else {
      var rest, c := s[1..], s[0];
      var g := RunsAreMaximal(rest);
      if rest != [] {
        FirstGap(g, Runs(rest));
      }
      if !IsDigit(c) {
        WidenGap(c, g, Runs(rest));
        gaps := g[0 := [c] + g[0]];
      } else if rest != [] && IsDigit(rest[0]) {
        WidenRun(c, g, Runs(rest));
        gaps := g;
      } else {
        NewRun(c, g, Runs(rest));
        gaps := [[]] + g;
      }
      assert s == [c] + rest;
    }
  }

  /** The digit runs of a name; a space between tokens ends a run. */
  function DigitRuns(name: Name): seq<string>
  {
    if name == [] then [] else Runs(name[0]) + DigitRuns(name[1..])
  }

  /** The tokens with a space between them. */
  function Joined(name: Name): string
  {
    if name == [] then "" else if |name| == 1 then name[0] else name[0] + (" " + Joined(name[1..]))
  }

  lemma {:induction false} RunsAcrossSpace(a: string, b: string)
    ensures Runs(a + (" " + b)) == Runs(a) + Runs(b)
  {
    var s := a + (" " + b);
    if a == [] {
      assert s == " " + b && s[1..] == b;
    } else {
      RunsAcrossSpace(a[1..], b);
      assert s[1..] == a[1..] + (" " + b) && s[0] == a[0];
      assert |s| > 1 && (s[1] == if |a| > 1 then a[1] else ' ');
      ExtendedBy(a[0], Runs(a[1..]), Runs(b));
    }
  }

  /** A digit before some runs joins the first of them or starts a new one; the later ones stay. */
  lemma ExtendedBy(c: char, runs: seq<string>, more: seq<string>)
    ensures [[c]] + (runs + more) == [[c]] + runs + more
    ensures runs != [] ==> [[c] + (runs + more)[0]] + (runs + more)[1..] == [[c] + runs[0]] + runs[1..] + more
  {
  }

  /** They are the maximal digit runs of the whole name. */
  lemma {:induction false} DigitRunsAreJoined(name: Name)
    ensures DigitRuns(name) == Runs(Joined(name))
  {
    if name != [] {
      DigitRunsAreJoined(name[1..]);
      if |name| > 1 {
        RunsAcrossSpace(name[0], Joined(name[1..]));
      }
    }
  }

  predicate StartsWith(s: string, prefix: string) { prefix <= s }

  /** `b` carries every token of `a` and at least one more. */
  predicate StrictlyContains(b: Name, a: Name) { |b| > |a| && forall i | 0 <= i < |a| :: a[i] in b }
}
