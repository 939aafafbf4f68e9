/** Which name each column gets, said without the functions that compute it: the stripped
    text or "col_" and the position, numbered when it came before, and counted up when taken. */
module ColumnNaming {
  import opened Collections
  import opened Columns
  import opened Decimals
  import opened Text

  // ------------------------------------------------------------ stripped texts

  /** `name` is text[i..j], and all around it is white space. */
  ghost predicate Cuts(text: string, name: string, i: nat, j: nat) {
    i <= j <= |text| && name == text[i..j] && forall k :: 0 <= k < i || j <= k < |text| ==> IsSpace(text[k])
  }

  /** `name` is the text without the white space around it. */
  ghost predicate StripsTo(text: string, name: string) {
    Trimmed(name) && exists i: nat, j: nat :: Cuts(text, name, i, j)
  }

  lemma {:induction false} TrimStartCuts(s: string) returns (i: nat)
    ensures i <= |s| && TrimStart(s) == s[i..] && forall k :: 0 <= k < i ==> IsSpace(s[k])
  {
    if s != "" && IsSpace(s[0]) {
      var m := TrimStartCuts(s[1..]);
      i := m + 1;
      assert forall k :: 0 < k < i ==> s[k] == s[1..][k - 1];
    } else {
      i := 0;
    }
  }

  lemma {:induction false} TrimCuts(s: string) returns (i: nat, j: nat)
    ensures Cuts(s, Trim(s), i, j)
    decreases |s|
  {
    var t := TrimStart(s);
    i := TrimStartCuts(s);
    j := |s|;
    if t != "" && IsSpace(t[|t| - 1]) {
      var front := t[..|t| - 1];
      var m, n := TrimCuts(front);
      CutsInside(s, front, i, Trim(front), m, n);
      i, j := i + m, i + n;
    }
  }

  /** A cut of a middle part is a cut of the whole, if what the middle leaves is white space. */
  lemma CutsInside(s: string, front: string, i: nat, name: string, m: nat, n: nat)
    requires i < |s| && front == s[i..][..|s| - i - 1] && IsSpace(s[|s| - 1])
    requires (forall k :: 0 <= k < i ==> IsSpace(s[k])) && Cuts(front, name, m, n)
    ensures Cuts(s, name, i + m, i + n)
  {
    assert forall k :: 0 <= k < |front| ==> front[k] == s[i + k];
    forall k | 0 <= k < i + m || i + n <= k < |s| ensures IsSpace(s[k]) {
      if i <= k < |s| - 1 {
        assert IsSpace(front[k - i]);
      }
    }
  }

  lemma TrimStrips(s: string)
    ensures StripsTo(s, Trim(s))
  {
    TrimIsTrimmed(s);
    var i, j := TrimCuts(s);
  }

  lemma CutsOnce(text: string, name: string, i: nat, j: nat, other: string, m: nat, n: nat)
    requires Cuts(text, name, i, j) && Cuts(text, other, m, n) && Trimmed(name) && Trimmed(other)
    requires name != ""
    ensures name == other
  {
    assert !IsSpace(text[i]) && !IsSpace(text[j - 1]);
    assert m <= i && j <= n;
    assert other != "" && text[m] == other[0] && text[n - 1] == other[|other| - 1];
    assert m == i && n == j;
  }

  lemma StripsToOne(text: string, name: string, other: string)
    requires StripsTo(text, name) && StripsTo(text, other)
    ensures name == other
  {
    var i: nat, j: nat :| Cuts(text, name, i, j);
    var m: nat, n: nat :| Cuts(text, other, m, n);
    if name != "" {
      CutsOnce(text, name, i, j, other, m, n);
    } else if other != "" {
      CutsOnce(text, other, m, n, name, i, j);
    }
  }

  // ------------------------------------------------------------ the renaming step

  /** `next` is what a taken name is changed to: the number at its end counts up, and a name
      that does not end in an underscore and a number gets "_1". */
  ghost predicate IsRenamed(name: string, next: string) {
    if exists stem, digits :: EndsIn(name, stem, digits)
    then exists stem, digits :: EndsIn(name, stem, digits) && next == stem + "_" + Print(Value(digits) + 1)
    else next == name + "_1"
  }

  ghost predicate EndsIn(name: string, stem: string, digits: string) {
    IsNumeral(digits) && name == stem + "_" + digits
  }

  /** There is only one way to split a name so. */
  lemma EndsInSplits(name: string, stem: string, digits: string)
    requires EndsIn(name, stem, digits)
    ensures Stem(name) == stem && Counter(name) == Value(digits)
  {
    var u := LastUnderscore(name);
    assert name[|stem|] == '_';
    assert forall i :: |stem| < i < |name| ==> name[i] == digits[i - |stem| - 1];
    assert u == |stem|;
    assert name[u + 1..] == digits && name[..u] == stem;
  }

  lemma NoNumberNoSplit(name: string)
    requires forall stem, digits :: !EndsIn(name, stem, digits)
    ensures Stem(name) == name && Counter(name) == 0
  {
    var u := LastUnderscore(name);
    if u >= 0 && IsNumeral(name[u + 1..]) {
      assert name == name[..u] + "_" + name[u + 1..];
      assert EndsIn(name, name[..u], name[u + 1..]);
      assert false;
    }
  }

  lemma RenamedIsNumbered(name: string)
    ensures IsRenamed(name, Numbered(Stem(name), Counter(name) + 1))
  {
    if stem, digits :| EndsIn(name, stem, digits) {
      EndsInSplits(name, stem, digits);
    } else {
      NoNumberNoSplit(name);
      FirstNumbered(name);
    }
  }

  /** The walk starts at the name itself and renames it step by step. */
  lemma WalkRenames(name: string, k: nat)
    ensures Candidate(name, 0) == name && IsRenamed(Candidate(name, k), Candidate(name, k + 1))
  {
    CandidateStep(name, k);
    RenamedIsNumbered(Candidate(name, k));
  }

  // ------------------------------------------------------------ the names of the columns

  /** The name a column starts from: its stripped text, or its position if that is empty. */
  ghost predicate IsBase(raw: RawName, idx: nat, base: string) {
    match raw
    case Unnamed => base == "col_" + Print(idx)
    case Named(text) => if StripsTo(text, "") then base == "col_" + Print(idx) else StripsTo(text, base)
  }

  ghost predicate AreBases(raws: seq<RawName>, bases: seq<string>) {
    |bases| == |raws| && forall k :: 0 <= k < |raws| ==> IsBase(raws[k], k + 1, bases[k])
  }

  lemma BaseIs(raw: RawName, idx: nat, base: string)
    requires IsBase(raw, idx, base)
    ensures BaseName(raw, idx) == base
  {
    if raw.Named? {
      TrimStrips(raw.text);
      if StripsTo(raw.text, "") {
        StripsToOne(raw.text, Trim(raw.text), "");
      } else {
        StripsToOne(raw.text, Trim(raw.text), base);
      }
    }
  }

  /** The positions up to n, exclusive, that start from the given name. */
  ghost function Places(bases: seq<string>, n: nat, base: string): set<int>
    requires n <= |bases|
  {
    set j | 0 <= j < n && bases[j] == base
  }

  lemma {:induction false} PlacesAreOccurrences(raws: seq<RawName>, bases: seq<string>, n: nat, base: string)
    requires AreBases(raws, bases) && n <= |raws|
    ensures |Places(bases, n, base)| == Occurrences(raws, n, base)
  {
    if n > 0 {
      PlacesAreOccurrences(raws, bases, n - 1, base);
      BaseIs(raws[n - 1], n, bases[n - 1]);
      PlacesNext(bases, n - 1, base);
    }
  }

  lemma PlacesNext(bases: seq<string>, n: nat, base: string)
    requires n < |bases|
    ensures |Places(bases, n + 1, base)| == |Places(bases, n, base)| + if bases[n] == base then 1 else 0
  {
    var before := Places(bases, n, base);
    assert Places(bases, n + 1, base) == if bases[n] == base then before + {n} else before;
  }

  lemma {:induction false} NamesPrefix(raws: seq<RawName>, n: nat, k: nat)
    requires k <= n <= |raws|
    ensures NamesOf(raws, n)[..k] == NamesOf(raws, k)
  {
    if k == n {
      WholePrefix(NamesOf(raws, n));
    } else {
      NamesPrefix(raws, n - 1, k);
      NamesGrow(raws, n - 1, k);
    }
  }

  lemma NamesGrow(raws: seq<RawName>, n: nat, k: nat)
    requires k <= n < |raws|
    ensures NamesOf(raws, n + 1)[..k] == NamesOf(raws, n)[..k]
  {
    var before, name := NamesOf(raws, n), Fresh(Proposed(raws, n), Elements(NamesOf(raws, n)));
    assert NamesOf(raws, n + 1) == before + [name] by {
      NamesNext(raws, n, before, name);
    }
    PrefixOfAppended(before, name, k);
  }

  lemma WholePrefix<T>(s: seq<T>)
    ensures s[..|s|] == s
  {
  }

  lemma PrefixOfAppended<T>(s: seq<T>, x: T, k: nat)
    requires k <= |s|
    ensures (s + [x])[..k] == s[..k]
  {
  }

  /** The name asked for: the base, with its number of occurrences from the second one on. */
  ghost function Wanted(bases: seq<string>, k: nat): string
    requires k < |bases|
  {
    var nth := |Places(bases, k + 1, bases[k])|;
    if nth == 1 then bases[k] else bases[k] + "_" + Print(nth)
  }

  lemma WantedIsProposed(raws: seq<RawName>, bases: seq<string>, k: nat)
    requires AreBases(raws, bases) && k < |raws|
    ensures Wanted(bases, k) == Proposed(raws, k)
  {
    BaseIs(raws[k], k + 1, bases[k]);
    PlacesAreOccurrences(raws, bases, k + 1, bases[k]);
    assert k in Places(bases, k + 1, bases[k]);
  }

  /** The names tried one after the other, each the renaming of the one before. */
  ghost predicate IsWalk(walk: seq<string>, start: string) {
    walk != [] && walk[0] == start && forall i :: 0 < i < |walk| ==> IsRenamed(walk[i - 1], walk[i])
  }

  /** What every column is called. Column k gets the name it asks for, unless an earlier
      column has it; then it gets the first of the renamings that no earlier column has. */
  lemma ColumnIsCalled(raws: seq<RawName>, bases: seq<string>, k: nat) returns (walk: seq<string>)
    requires AreBases(raws, bases) && k < |raws|
    ensures var names := Names(raws);
      && IsWalk(walk, Wanted(bases, k)) && names[k] == walk[|walk| - 1] && names[k] !in names[..k]
      && (forall i :: 0 <= i < |walk| - 1 ==> walk[i] in names[..k])
      && (Wanted(bases, k) !in names[..k] ==> names[k] == Wanted(bases, k))
  {
    var wanted, before := Wanted(bases, k), NamesOf(raws, k);
    assert Names(raws)[..k] == before && Names(raws)[k] == Fresh(wanted, Elements(before)) by {
      WantedIsProposed(raws, bases, k);
      NameAt(raws, k);
    }
    walk := WalkTo(wanted, before);
  }

  lemma NameAt(raws: seq<RawName>, k: nat)
    requires k < |raws|
    ensures Names(raws)[..k] == NamesOf(raws, k)
    ensures Names(raws)[k] == Fresh(Proposed(raws, k), Elements(NamesOf(raws, k)))
  {
    NamesPrefix(raws, |raws|, k);
    NamesPrefix(raws, |raws|, k + 1);
    assert NamesOf(raws, k + 1)[k] == Names(raws)[..k + 1][k];
  }

  lemma WalkTo(name: string, before: seq<string>) returns (walk: seq<string>)
    ensures IsWalk(walk, name) && walk[|walk| - 1] == Fresh(name, Elements(before)) && walk[|walk| - 1] !in before
    ensures forall i :: 0 <= i < |walk| - 1 ==> walk[i] in before
  {
    var steps := FirstFreeFrom(name, Elements(before), 0);
    walk := Candidates(name, steps);
    assert walk[|walk| - 1] == Fresh(name, Elements(before));
    assert FirstFree(name, Elements(before), steps);
  }

  lemma Candidates(name: string, steps: nat) returns (walk: seq<string>)
    ensures |walk| == steps + 1 && forall i :: 0 <= i <= steps ==> walk[i] == Candidate(name, i)
    ensures IsWalk(walk, name)
  {
    walk := CandidatesTo(name, steps);
    forall i | 0 < i < |walk| ensures IsRenamed(walk[i - 1], walk[i]) {
      RenamedBetween(walk[i - 1], walk[i], name, i - 1);
    }
  }

  function CandidatesTo(name: string, steps: nat): (walk: seq<string>)
    ensures |walk| == steps + 1 && forall i :: 0 <= i <= steps ==> walk[i] == Candidate(name, i)
  {
    seq(steps + 1, i requires 0 <= i <= steps => Candidate(name, i))
  }

  lemma RenamedBetween(name: string, next: string, start: string, k: nat)
    requires name == Candidate(start, k) && next == Candidate(start, k + 1)
    ensures IsRenamed(name, next)
  {
    WalkRenames(start, k);
  }

  // ------------------------------------------------------------ special cases

  /** A text that occurs for the n-th time, n > 1, becomes text_n if no earlier column is
      called that; one that occurs for the first time stays, and so does a position. */
  lemma FreeNameIsGiven(raws: seq<RawName>, bases: seq<string>, k: nat, nth: nat)
    requires AreBases(raws, bases) && k < |raws| && nth == |Places(bases, k + 1, bases[k])|
    ensures nth == 1 && bases[k] !in Names(raws)[..k] ==> Names(raws)[k] == bases[k]
    ensures nth > 1 && bases[k] + "_" + Print(nth) !in Names(raws)[..k] ==>
      Names(raws)[k] == bases[k] + "_" + Print(nth)
    ensures nth >= 1
  {
    var walk := ColumnIsCalled(raws, bases, k);
    assert k in Places(bases, k + 1, bases[k]);
  }

  /** Two columns of one name, as a join gives them. */
  lemma SecondColumnIsNumbered()
    ensures Names([Named("id"), Named("id")]) == ["id", "id_2"]
  {
    var raws, bases := [Named("id"), Named("id")], ["id", "id"];
    assert !IsSpace('i') && !IsSpace('d');
    assert Cuts("id", "id", 0, 2);
    assert StripsTo("id", "id");
    if StripsTo("id", "") {
      StripsToOne("id", "id", "");
    }
    assert Places(bases, 1, "id") == {0} && Places(bases, 2, "id") == {0, 1};
    FreeNameIsGiven(raws, bases, 0, 1);
    FreeNameIsGiven(raws, bases, 1, 2);
    assert Names(raws)[..1] == [Names(raws)[0]];
    assert Print(2) == "2";
    assert "id" + "_" + "2" == "id_2";
  }
}
