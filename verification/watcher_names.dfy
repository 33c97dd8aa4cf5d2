/** The file-name helpers of `watcher.py`: `os.path.splitext` on a base name,
    and the two generators of names not yet used in a directory
    (`generate_unique_filename`, `generate_unique_log_filename`). A directory
    is the set of names it holds. */
module WatcherNames {
  import opened Wrappers
  import opened PyText

  /** The position of the last `c` in `s`, if any. */
  function LastIndexOf(s: string, c: char): (r: Option<nat>)
    ensures r.None? <==> c !in s
    ensures r.Some? ==> r.value < |s| && s[r.value] == c && c !in s[r.value + 1..]
    decreases |s|
  {
    if |s| == 0 then None
    else if s[|s| - 1] == c then Some(|s| - 1)
    else
      var r := LastIndexOf(s[..|s| - 1], c);
      assert r.Some? ==> s[r.value + 1..] == s[..|s| - 1][r.value + 1..] + [s[|s| - 1]];
      r
  }

  predicate AllDots(s: string) {
    forall k :: 0 <= k < |s| ==> s[k] == '.'
  }

  /** `os.path.splitext(name)` for a name without a directory part: the
      extension starts at the last dot, unless only dots come before it (a
      name like ".profile" has no extension). */
  function SplitExt(name: string): (r: (string, string))
    ensures r.0 + r.1 == name
    ensures r.1 == "" || (r.1[0] == '.' && '.' !in r.1[1..])
    ensures r.1 != "" ==> !AllDots(r.0)
    ensures r.1 == "" ==> '.' !in name || AllDots(name[..LastIndexOf(name, '.').value])
  {
    match LastIndexOf(name, '.')
    case None => (name, "")
    case Some(i) =>
      if AllDots(name[..i]) then (name, "")
      else
        assert name[..i] + name[i..] == name;
        (name[..i], name[i..])
  }

  /** The `k`-th name the generators try: `stem + tag + suffix` first, then
      `stem + tag + "_" + str(k) + suffix` for k = 1, 2, ... */
  function Candidate(stem: string, tag: string, suffix: string, k: nat): string {
    if k == 0 then stem + tag + suffix
    else stem + tag + "_" + NatToString(k) + suffix
  }

  /** Different counters give different names. */
  lemma CandidateInjective(stem: string, tag: string, suffix: string, j: nat, k: nat)
    requires Candidate(stem, tag, suffix, j) == Candidate(stem, tag, suffix, k)
    ensures j == k
  {
    var p := stem + tag;
    var middle := (n: nat) => if n == 0 then "" else "_" + NatToString(n);
    assert Candidate(stem, tag, suffix, j) == p + middle(j) + suffix;
    assert Candidate(stem, tag, suffix, k) == p + middle(k) + suffix;
    var a := p + middle(j) + suffix;
    var b := p + middle(k) + suffix;
    assert |middle(j)| == |middle(k)|;
    assert middle(j) == a[|p|..|a| - |suffix|];
    assert middle(k) == b[|p|..|b| - |suffix|];
    if j != 0 && k != 0 {
      assert NatToString(j) == middle(j)[1..];
      assert NatToString(k) == middle(k)[1..];
      NatToStringInjective(j, k);
    }
  }

  /** The loop of both generators: the first candidate not in `existing`,
      and its counter. */
  method FirstFree(existing: set<string>, stem: string, tag: string, suffix: string)
    returns (name: string, k: nat)
    ensures name !in existing
    ensures name == Candidate(stem, tag, suffix, k)
    ensures forall j :: 0 <= j < k ==> Candidate(stem, tag, suffix, j) in existing
    ensures k <= |existing|
  {
    k := 0;
    name := Candidate(stem, tag, suffix, 0);
    ghost var tried: set<string> := {};
    while name in existing
      invariant name == Candidate(stem, tag, suffix, k)
      invariant forall j :: 0 <= j < k ==> Candidate(stem, tag, suffix, j) in tried
      invariant forall x :: x in tried ==> exists j :: 0 <= j < k && x == Candidate(stem, tag, suffix, j)
      invariant tried <= existing
      invariant |tried| == k
      decreases |existing| - k
    {
      if name in tried {
        var j :| 0 <= j < k && name == Candidate(stem, tag, suffix, j);
        CandidateInjective(stem, tag, suffix, j, k);
        assert false;
      }
      tried := tried + {name};
      assert |tried| <= |existing| by {
        SubsetCardinality(tried, existing);
      }
      k := k + 1;
      name := Candidate(stem, tag, suffix, k);
    }
    SubsetCardinality(tried, existing);
  }

  lemma SubsetCardinality<T>(a: set<T>, b: set<T>)
    requires a <= b
    ensures |a| <= |b|
  {
    assert b == a + (b - a);
  }

  /** `generate_unique_filename(directory, name)`: "<base>_edited<ext>",
      else "<base>_edited_1<ext>", "<base>_edited_2<ext>", ... */
  method UniqueEditedName(existing: set<string>, original: string) returns (name: string)
    ensures name !in existing
    ensures exists k: nat :: name == Candidate(SplitExt(original).0, "_edited", SplitExt(original).1, k)
                        && forall j :: 0 <= j < k ==>
                             Candidate(SplitExt(original).0, "_edited", SplitExt(original).1, j) in existing
  {
    var (base, ext) := SplitExt(original);
    var k;
    name, k := FirstFree(existing, base, "_edited", ext);
  }

  /** `generate_unique_log_filename(directory, name)`: "<base>.txt", else
      "<base>_1.txt", "<base>_2.txt", ... */
  method UniqueLogName(existing: set<string>, original: string) returns (name: string)
    ensures name !in existing
    ensures exists k: nat :: name == Candidate(SplitExt(original).0, "", ".txt", k)
                        && forall j :: 0 <= j < k ==> Candidate(SplitExt(original).0, "", ".txt", j) in existing
  {
    var k;
    name, k := FirstFree(existing, SplitExt(original).0, "", ".txt");
  }
}
