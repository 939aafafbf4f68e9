/** Column names of a result set, made non-empty and distinct, and the row dictionaries
    keyed by them. */
module Columns {
  import opened Collections
  import opened Decimals
  import opened Text

  /** A column name as the driver reports it; `Named` holds its text. */
  datatype RawName = Unnamed | Named(text: string)

  // ------------------------------------------------------------ trimming

  function TrimStart(s: string): (t: string)
    ensures |t| <= |s|
  {
    if s != "" && IsSpace(s[0]) then TrimStart(s[1..]) else s
  }

  function Trim(s: string): string
    decreases |s|
  {
    var t := TrimStart(s);
    if t != "" && IsSpace(t[|t| - 1]) then Trim(t[..|t| - 1]) else t
  }

  ghost predicate Trimmed(s: string) {
    s != "" ==> !IsSpace(s[0]) && !IsSpace(s[|s| - 1])
  }

  lemma {:induction false} TrimStartEffect(s: string)
    ensures |TrimStart(s)| <= |s| && (TrimStart(s) != "" ==> !IsSpace(TrimStart(s)[0]))
  {
    if s != "" && IsSpace(s[0]) {
      TrimStartEffect(s[1..]);
    }
  }

  // ------------------------------------------------------------ the renaming walk

  function LastUnderscore(s: string): (u: int)
    ensures -1 <= u < |s|
    ensures u >= 0 ==> s[u] == '_'
    ensures forall i :: u < i < |s| ==> s[i] != '_'
  {
    if s == "" then -1 else if s[|s| - 1] == '_' then |s| - 1 else LastUnderscore(s[..|s| - 1])
  }

  /** `name.rsplit("_", 1)` when the last part is a numeral, else the whole name and 0. */
  function Stem(name: string): string {
    var u := LastUnderscore(name);
    if u >= 0 && IsNumeral(name[u + 1..]) then name[..u] else name
  }

  function Counter(name: string): nat {
    var u := LastUnderscore(name);
    if u >= 0 && IsNumeral(name[u + 1..]) then Value(name[u + 1..]) else 0
  }

  function Numbered(stem: string, n: nat): string {
    stem + "_" + Print(n)
  }

  /** The k-th name tried when `name` is taken. */
  function Candidate(name: string, k: nat): string {
    if k == 0 then name else Numbered(Stem(name), Counter(name) + k)
  }

  lemma SplitNumbered(stem: string, n: nat)
    ensures Stem(Numbered(stem, n)) == stem && Counter(Numbered(stem, n)) == n
  {
    var s := Numbered(stem, n);
    var u := LastUnderscore(s);
    assert s[|stem|] == '_';
    assert forall i :: |stem| < i < |s| ==> s[i] == Print(n)[i - |stem| - 1];
    assert u == |stem|;
    assert s[u + 1..] == Print(n) && s[..u] == stem;
    ValueOfPrint(n);
  }

  lemma SplitCandidate(name: string, k: nat)
    ensures Stem(Candidate(name, k)) == Stem(name) && Counter(Candidate(name, k)) == Counter(name) + k
  {
    if k > 0 {
      var stem, n := Stem(name), Counter(name) + k;
      SplitNumbered(stem, n);
      assert Candidate(name, k) == Numbered(stem, n);
    }
  }

  lemma CandidateStep(name: string, k: nat)
    ensures Candidate(name, k + 1) == Numbered(Stem(Candidate(name, k)), Counter(Candidate(name, k)) + 1)
  {
    SplitCandidate(name, k);
    assert Candidate(name, k + 1) == Numbered(Stem(name), Counter(name) + k + 1);
  }

  /** The walk never tries the same name twice. */
  lemma CandidatesDiffer(name: string, i: nat, j: nat)
    requires i < j
    ensures Candidate(name, i) != Candidate(name, j)
  {
    SplitCandidate(name, i);
    SplitCandidate(name, j);
    assert Counter(Candidate(name, i)) != Counter(Candidate(name, j));
  }

  ghost predicate AllTaken(name: string, taken: set<string>, k: nat) {
    forall i :: 0 <= i < k ==> Candidate(name, i) in taken
  }

  ghost predicate FirstFree(name: string, taken: set<string>, k: nat) {
    Candidate(name, k) !in taken && AllTaken(name, taken, k)
  }

  /** As many names are taken as candidates were passed over. */
  lemma TakenBound(name: string, k: nat, taken: set<string>)
    requires AllTaken(name, taken, k)
    ensures k <= |taken|
  {
    var tried := seq(k, i requires 0 <= i < k => Candidate(name, i));
    forall i, j | 0 <= i < j < k ensures tried[i] != tried[j] {
      CandidatesDiffer(name, i, j);
    }
    DistinctCount(tried);
    SubsetSize(Elements(tried), taken);
  }

  /** How many of the candidates, from the given one on, have to be passed over. */
  ghost function FirstFreeFrom(name: string, taken: set<string>, from: nat): (k: nat)
    requires AllTaken(name, taken, from)
    ensures FirstFree(name, taken, k)
    decreases |taken| - from
  {
    TakenBound(name, from, taken);
    if Candidate(name, from) in taken then
      TakenBound(name, from + 1, taken);
      FirstFreeFrom(name, taken, from + 1)
    else from
  }

  ghost function Fresh(name: string, taken: set<string>): string {
    Candidate(name, FirstFreeFrom(name, taken, 0))
  }

  /** The body of the inner `while` loop. */
  method NextName(name: string) returns (next: string)
    ensures next == Numbered(Stem(name), Counter(name) + 1)
  {
    var u := LastUnderscore(name);
    if u >= 0 {
      var base, suffix := name[..u], name[u + 1..];
      if IsNumeral(suffix) {
        next := base + "_" + Print(Value(suffix) + 1);
      } else {
        next := name + "_1";
        FirstNumbered(name);
      }
    } else {
      next := name + "_1";
      FirstNumbered(name);
    }
  }

  lemma FirstNumbered(stem: string)
    ensures stem + "_1" == Numbered(stem, 1)
  {
    assert Print(1) == "1";
    assert "_1" == "_" + "1";
  }

  /** The inner `while` loop; `steps` counts its iterations. */
  method MakeUnique(name: string, taken: set<string>) returns (unique: string, steps: nat)
    ensures steps <= |taken| && FirstFree(name, taken, steps) && unique == Candidate(name, steps)
  {
    unique, steps := name, 0;
    while unique in taken
      invariant unique == Candidate(name, steps) && steps <= |taken|
      invariant AllTaken(name, taken, steps)
      decreases |taken| - steps
    {
      PassedOver(name, taken, steps);
      CandidateStep(name, steps);
      unique := NextName(unique);
      steps := steps + 1;
    }
  }

  lemma PassedOver(name: string, taken: set<string>, k: nat)
    requires AllTaken(name, taken, k) && Candidate(name, k) in taken
    ensures AllTaken(name, taken, k + 1) && k + 1 <= |taken|
  {
    TakenBound(name, k + 1, taken);
  }

  lemma FirstFreeIsFresh(name: string, taken: set<string>, k: nat)
    requires FirstFree(name, taken, k)
    ensures Fresh(name, taken) == Candidate(name, k)
  {
    var j := FirstFreeFrom(name, taken, 0);
    assert j == k;
  }

  // ------------------------------------------------------------ the whole list

  /** The name before it is made unique. */
  function BaseName(raw: RawName, idx: nat): string {
    var name := if raw.Named? then Trim(raw.text) else "";
    if name == "" then "col_" + Print(idx) else name
  }

  function Proposal(name: string, count: nat): string {
    if count > 1 then name + "_" + Print(count) else name
  }

  /** `seen.get(name, 0)` */
  function Count(seen: map<string, nat>, name: string): nat {
    if name in seen then seen[name] else 0
  }

  /** How many of the first n columns have the given base name. */
  ghost function Occurrences(raws: seq<RawName>, n: nat, name: string): nat
    requires n <= |raws|
  {
    if n == 0 then 0 else Occurrences(raws, n - 1, name) + if BaseName(raws[n - 1], n) == name then 1 else 0
  }

  /** The name first tried for column k: the base name, numbered if it came before. */
  ghost function Proposed(raws: seq<RawName>, k: nat): string
    requires k < |raws|
  {
    var name := BaseName(raws[k], k + 1);
    Proposal(name, Occurrences(raws, k + 1, name))
  }

  /** The names of the first n columns. */
  ghost function NamesOf(raws: seq<RawName>, n: nat): (names: seq<string>)
    requires n <= |raws|
    ensures |names| == n
  {
    if n == 0 then []
    else
      var before := NamesOf(raws, n - 1);
      before + [Fresh(Proposed(raws, n - 1), Elements(before))]
  }

  ghost function Names(raws: seq<RawName>): seq<string> {
    NamesOf(raws, |raws|)
  }

  function Elements(s: seq<string>): set<string> {
    set x | x in s
  }

  lemma ElementsAppend(s: seq<string>, x: string)
    ensures Elements(s + [x]) == Elements(s) + {x}
  {
  }

  /** `seen` counts the base names of the first n columns. */
  ghost predicate Counts(seen: map<string, nat>, raws: seq<RawName>, n: nat)
    requires n <= |raws|
  {
    forall x :: Count(seen, x) == Occurrences(raws, n, x)
  }

  lemma CountsNext(seen: map<string, nat>, raws: seq<RawName>, n: nat)
    requires n < |raws| && Counts(seen, raws, n)
    ensures var name := BaseName(raws[n], n + 1);
      && Counts(seen[name := Count(seen, name) + 1], raws, n + 1)
      && Occurrences(raws, n + 1, name) == Count(seen, name) + 1
  {
    var name := BaseName(raws[n], n + 1);
    var next := seen[name := Count(seen, name) + 1];
    forall x ensures Count(next, x) == Occurrences(raws, n + 1, x) {
      assert Count(seen, x) == Occurrences(raws, n, x);
    }
  }

  method NormalizeColumnNames(raws: seq<RawName>) returns (normalized: seq<string>)
    ensures normalized == Names(raws)
  {
    normalized := [];
    var seen: map<string, nat> := map[];
    var finalNames: set<string> := {};
    for idx := 0 to |raws|
      invariant normalized == NamesOf(raws, idx) && Counts(seen, raws, idx)
      invariant finalNames == Elements(normalized)
    {
      var name := match raws[idx] case Named(text) => Trim(text) case Unnamed => "";
      if name == "" {
        name := "col_" + Print(idx + 1);
      }
      assert name == BaseName(raws[idx], idx + 1);
      CountsNext(seen, raws, idx);
      seen := seen[name := Count(seen, name) + 1];
      var count := seen[name];
      var proposal := if count > 1 then name + "_" + Print(count) else name;
      var unique, steps := MakeUnique(proposal, finalNames);
      assert unique == Fresh(Proposed(raws, idx), Elements(normalized)) by {
        FirstFreeIsFresh(proposal, finalNames, steps);
      }
      ElementsAppend(normalized, unique);
      finalNames := finalNames + {unique};
      normalized := normalized + [unique];
    }
  }

  /** A list that normalization has nothing to do on. */
  ghost predicate Clean(names: seq<string>) {
    NoDup(names) && forall i :: 0 <= i < |names| ==> names[i] != "" && Trimmed(names[i])
  }

  lemma {:induction false} TrimIsTrimmed(s: string)
    ensures Trimmed(Trim(s)) && (Trimmed(s) ==> Trim(s) == s)
    decreases |s|
  {
    TrimStartEffect(s);
    var t := TrimStart(s);
    if t != "" && IsSpace(t[|t| - 1]) {
      TrimIsTrimmed(t[..|t| - 1]);
    }
  }

  lemma NumberedIsTrimmed(stem: string, n: nat)
    requires stem == "" || !IsSpace(stem[0])
    ensures Numbered(stem, n) != "" && Trimmed(Numbered(stem, n))
  {
    var s := Numbered(stem, n);
    assert s[0] == if stem == "" then '_' else stem[0];
    assert s[|s| - 1] == Print(n)[|Print(n)| - 1];
  }

  lemma FreshIsClean(name: string, taken: set<string>)
    requires name != "" && Trimmed(name)
    ensures Fresh(name, taken) !in taken && Fresh(name, taken) != "" && Trimmed(Fresh(name, taken))
  {
    CandidateIsClean(name, FirstFreeFrom(name, taken, 0));
  }

  lemma CandidateIsClean(name: string, k: nat)
    requires name != "" && Trimmed(name)
    ensures Candidate(name, k) != "" && Trimmed(Candidate(name, k))
  {
    if k > 0 {
      StemStarts(name);
      NumberedIsTrimmed(Stem(name), Counter(name) + k);
    }
  }

  lemma StemStarts(name: string)
    requires name != ""
    ensures Stem(name) == "" || Stem(name)[0] == name[0]
  {
  }

  lemma ProposalIsClean(raw: RawName, idx: nat, count: nat)
    ensures var s := Proposal(BaseName(raw, idx), count); s != "" && Trimmed(s)
  {
    if raw.Named? {
      TrimIsTrimmed(raw.text);
    }
    NumberedIsTrimmed("col", idx);
    assert "col_" + Print(idx) == Numbered("col", idx);
    NumberedIsTrimmed(BaseName(raw, idx), count);
  }

  lemma {:induction false} PrefixIsClean(raws: seq<RawName>, n: nat)
    requires n <= |raws|
    ensures Clean(NamesOf(raws, n))
  {
    if n > 0 {
      PrefixIsClean(raws, n - 1);
      var before, proposed := NamesOf(raws, n - 1), Proposed(raws, n - 1);
      var name := BaseName(raws[n - 1], n);
      assert proposed != "" && Trimmed(proposed) by {
        ProposalIsClean(raws[n - 1], n, Occurrences(raws, n, name));
      }
      FreshIsClean(proposed, Elements(before));
      CleanExtends(before, Fresh(proposed, Elements(before)));
    }
  }

  lemma CleanExtends(names: seq<string>, name: string)
    requires Clean(names) && name !in names && name != "" && Trimmed(name)
    ensures Clean(names + [name])
  {
  }

  /** One name per column, all of them non-empty, trimmed and pairwise distinct. */
  lemma NamesAreClean(raws: seq<RawName>)
    ensures |Names(raws)| == |raws| && Clean(Names(raws))
  {
    PrefixIsClean(raws, |raws|);
  }

  function Raw(names: seq<string>): (r: seq<RawName>)
    ensures |r| == |names|
    ensures forall i :: 0 <= i < |r| ==> r[i] == Named(names[i])
  {
    seq(|names|, i requires 0 <= i < |names| => Named(names[i]))
  }

  lemma {:induction false} CleanPrefixStays(names: seq<string>, n: nat)
    requires Clean(names) && n <= |names|
    ensures NamesOf(Raw(names), n) == names[..n]
  {
    if n > 0 {
      CleanPrefixStays(names, n - 1);
      PrefixNext(Raw(names), names, n - 1);
    }
  }

  lemma PrefixNext(raws: seq<RawName>, names: seq<string>, k: nat)
    requires Clean(names) && k < |names| && raws == Raw(names)
    requires NamesOf(raws, k) == names[..k]
    ensures NamesOf(raws, k + 1) == names[..k + 1]
  {
    var before, name := names[..k], names[k];
    assert Fresh(Proposed(raws, k), Elements(before)) == name by { NextStays(names, k); }
    assert names[..k + 1] == before + [name] by { PrefixStep(names, k + 1); }
    NamesNext(raws, k, before, name);
  }

  lemma NamesNext(raws: seq<RawName>, n: nat, before: seq<string>, name: string)
    requires n < |raws| && NamesOf(raws, n) == before && Fresh(Proposed(raws, n), Elements(before)) == name
    ensures NamesOf(raws, n + 1) == before + [name]
  {
  }

  lemma NextStays(names: seq<string>, k: nat)
    requires Clean(names) && k < |names|
    ensures Fresh(Proposed(Raw(names), k), Elements(names[..k])) == names[k]
  {
    CleanNameIsProposed(names, k);
    CleanNameIsNew(names, k);
    FirstFreeIsFresh(names[k], Elements(names[..k]), 0);
  }

  lemma CleanNameIsProposed(names: seq<string>, k: nat)
    requires Clean(names) && k < |names|
    ensures Proposed(Raw(names), k) == names[k]
  {
    TrimIsTrimmed(names[k]);
    NeverBefore(names, k, names[k]);
  }

  lemma {:induction false} NeverBefore(names: seq<string>, k: nat, name: string)
    requires Clean(names) && k <= |names| && name !in names[..k]
    ensures Occurrences(Raw(names), k, name) == 0
  {
    if k > 0 {
      assert names[..k][k - 1] == names[k - 1];
      TrimIsTrimmed(names[k - 1]);
      NeverBefore(names, k - 1, name);
    }
  }

  lemma CleanNameIsNew(names: seq<string>, k: nat)
    requires Clean(names) && k < |names|
    ensures names[k] !in Elements(names[..k])
  {
  }

  lemma PrefixStep<T>(s: seq<T>, n: nat)
    requires 0 < n <= |s|
    ensures s[..n] == s[..n - 1] + [s[n - 1]]
  {
  }

  /** Clean names are left alone, so normalization is idempotent. */
  lemma CleanNamesStay(names: seq<string>)
    requires Clean(names)
    ensures Names(Raw(names)) == names
  {
    CleanPrefixStays(names, |names|);
    assert names[..|names|] == names;
  }

  lemma NormalizationIsIdempotent(raws: seq<RawName>)
    ensures Names(Raw(Names(raws))) == Names(raws)
  {
    NamesAreClean(raws);
    CleanNamesStay(Names(raws));
  }

  // ------------------------------------------------------------ row dictionaries

  /** The last position below n at which `key` is a column. */
  ghost predicate LastAt(columns: seq<string>, n: nat, key: string, i: nat) {
    i < n <= |columns| && columns[i] == key && forall j :: i < j < n ==> columns[j] != key
  }

  /** One key per column that has a value; the last of equal columns wins. */
  ghost predicate IsRowDict<T>(columns: seq<string>, row: seq<T>, d: map<string, T>) {
    var n := if |columns| < |row| then |columns| else |row|;
    && d.Keys == Elements(columns[..n])
    && forall key, i: nat :: LastAt(columns, n, key, i) ==> key in d && d[key] == row[i]
  }

  /** `dict(zip(columns, row, strict=False))` */
  method RowDict<T>(columns: seq<string>, row: seq<T>) returns (d: map<string, T>)
    ensures IsRowDict(columns, row, d)
  {
    d := map[];
    var n := if |columns| < |row| then |columns| else |row|;
    for k := 0 to n
      invariant d.Keys == Elements(columns[..k])
      invariant forall key, i: nat :: LastAt(columns, k, key, i) ==> key in d && d[key] == row[i]
    {
      assert columns[..k + 1] == columns[..k] + [columns[k]];
      d := d[columns[k] := row[k]];
    }
  }

  /** No value of a row is lost: one key per column, each with the value at its place. */
  lemma RowDictLosesNothing<T>(raws: seq<RawName>, row: seq<T>, d: map<string, T>)
    requires |row| == |raws| && IsRowDict(Names(raws), row, d)
    ensures |d| == |raws|
    ensures forall i :: 0 <= i < |raws| ==> Names(raws)[i] in d && d[Names(raws)[i]] == row[i]
  {
    NamesAreClean(raws);
    var columns := Names(raws);
    assert columns[..|row|] == columns;
    DistinctCount(columns);
    assert |d| == |d.Keys|;
    forall i | 0 <= i < |raws| ensures columns[i] in d && d[columns[i]] == row[i] {
      assert LastAt(columns, |columns|, columns[i], i);
    }
  }

  lemma {:induction false} DistinctCount(s: seq<string>)
    requires NoDup(s)
    ensures |Elements(s)| == |s|
  {
    if s != [] {
      var t := s[..|s| - 1];
      DistinctCount(t);
      assert s == t + [s[|s| - 1]];
      assert Elements(s) == Elements(t) + {s[|s| - 1]};
    }
  }
}
