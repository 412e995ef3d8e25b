/** URL building for the shared route table (shared/routes.ts): every
    parameter's `:key` placeholder in a path is replaced, first occurrence
    only, by the parameter's value, entry after entry. */
module Routes {
  import opened Steps

  /** The path of the route that fetches one algorithm (line 21). */
  const AlgorithmPath: string := "/api/algorithms/:id"

  /** The placeholder text for a parameter key. */
  function Placeholder(key: string): (r: string)
    ensures |r| == |key| + 1 && r[0] == ':' && r[1..] == key
  {
    ":" + key
  }

  /** p occurs in s starting at position i. */
  predicate OccursAt(s: string, p: string, i: int) {
    0 <= i && i + |p| <= |s| && s[i..i + |p|] == p
  }

  ghost predicate Contains(s: string, p: string) {
    exists i :: OccursAt(s, p, i)
  }

  /** i is the first position at which p occurs in s. */
  predicate FirstAt(s: string, p: string, i: int) {
    OccursAt(s, p, i) && forall j :: 0 <= j < i ==> !OccursAt(s, p, j)
  }

  /** The first occurrence of p in s at or after position i. */
  function FindFrom(s: string, p: string, i: nat): (r: Option<nat>)
    requires i <= |s|
    ensures r.Some? ==> i <= r.value && OccursAt(s, p, r.value)
    ensures r.Some? ==> forall j :: i <= j < r.value ==> !OccursAt(s, p, j)
    ensures r.None? ==> forall j :: i <= j ==> !OccursAt(s, p, j)
    decreases |s| - i
  {
    if i + |p| > |s| then None
    else if s[i..i + |p|] == p then Some(i)
    else FindFrom(s, p, i + 1)
  }

  /** The position of the first occurrence, as `includes` and `replace` find it. */
  function IndexOf(s: string, p: string): (r: Option<nat>)
    ensures r.Some? <==> Contains(s, p)
    ensures r.Some? ==> FirstAt(s, p, r.value)
  {
    FindFrom(s, p, 0)
  }

  /** The replacement text String.prototype.replace inserts for a string
      pattern: in the value, `$$` stands for one `$`, `$&` for the matched
      text, `` $` `` for the text before the match and `$'` for the text after
      it; every other character, and a `$` not followed by one of these,
      stands for itself. */
  function Expand(v: string, before: string, matched: string, after: string): (r: string)
    ensures forall c :: c in r ==> c in v || c in before || c in matched || c in after
    decreases |v|
  {
    if v == [] then []
    else if |v| >= 2 && v[0] == '$' && v[1] in "$&`'" then
      (if v[1] == '$' then "$" else if v[1] == '&' then matched else if v[1] == '`' then before else after)
      + Expand(v[2..], before, matched, after)
    else [v[0]] + Expand(v[1..], before, matched, after)
  }

  /** A value without `$` is inserted literally. */
  lemma {:induction false} ExpandLiteral(v: string, before: string, matched: string, after: string)
    requires '$' !in v
    ensures Expand(v, before, matched, after) == v
    decreases |v|
  {
    if v != [] {
      assert v == [v[0]] + v[1..];
      ExpandLiteral(v[1..], before, matched, after);
    }
  }

  /** String.prototype.replace with a string pattern: only the first
      occurrence of p is replaced; without one, s is returned as it is. */
  function Replace(s: string, p: string, v: string): (r: string)
    ensures !Contains(s, p) ==> r == s
    ensures Contains(s, p) && '$' !in v ==> |r| == |s| - |p| + |v|
  {
    match IndexOf(s, p)
    case None => s
    case Some(i) => ReplaceWith(s, p, v, i)
  }

  /** The occurrence of p at i replaced by the expansion of v. */
  function ReplaceWith(s: string, p: string, v: string, i: nat): (r: string)
    requires i + |p| <= |s|
    ensures '$' !in v ==> r == s[..i] + v + s[i + |p|..]
  {
    ExpandLiteralWhenPlain(v, s[..i], p, s[i + |p|..]);
    s[..i] + Expand(v, s[..i], p, s[i + |p|..]) + s[i + |p|..]
  }

  /** Expand on a value without `$`, stated as an implication so that Replace
      can call it whatever the value. */
  lemma ExpandLiteralWhenPlain(v: string, before: string, matched: string, after: string)
    ensures '$' !in v ==> Expand(v, before, matched, after) == v
  {
    if '$' !in v {
      ExpandLiteral(v, before, matched, after);
    }
  }

  /** Two first positions are one position. */
  lemma FirstAtUnique(s: string, p: string, i: int, j: int)
    requires FirstAt(s, p, i) && FirstAt(s, p, j)
    ensures i == j
  {
  }

  /** With its first occurrence at i, p is cut out there and the value, when
      it holds no `$`, is put in its place. */
  lemma ReplaceAt(s: string, p: string, v: string, i: int)
    requires FirstAt(s, p, i) && '$' !in v
    ensures Replace(s, p, v) == s[..i] + v + s[i + |p|..]
  {
    assert Contains(s, p) by { assert OccursAt(s, p, i); }
    var k := IndexOf(s, p).value;
    FirstAtUnique(s, p, i, k);
    assert Replace(s, p, v) == ReplaceWith(s, p, v, i);
  }

  /** One parameter entry (lines 34-36): when `:key` occurs in the url, its
      first occurrence is replaced by the value. */
  function SubstituteOne(url: string, entry: (string, string)): (r: string)
    ensures !Contains(url, Placeholder(entry.0)) ==> r == url
    ensures Contains(url, Placeholder(entry.0)) && '$' !in entry.1 ==> |r| == |url| - |entry.0| - 1 + |entry.1|
  {
    var p := Placeholder(entry.0);
    if IndexOf(url, p).Some? then Replace(url, p, entry.1) else url
  }

  /** The entry's placeholder first occurring at i is replaced there. */
  lemma SubstituteOneAt(url: string, entry: (string, string), i: int)
    requires FirstAt(url, Placeholder(entry.0), i) && '$' !in entry.1
    ensures SubstituteOne(url, entry) == url[..i] + entry.1 + url[i + |entry.0| + 1..]
  {
    ReplaceAt(url, Placeholder(entry.0), entry.1, i);
  }

  /** The entries in order, each acting on the url the earlier ones left. */
  function Substitute(url: string, entries: seq<(string, string)>): string
    decreases |entries|
  {
    if entries == [] then url
    else SubstituteOne(Substitute(url, entries[..|entries| - 1]), entries[|entries| - 1])
  }

  /** buildUrl (lines 30-40): the path alone when no parameters are given,
      otherwise the path with the placeholder of each entry replaced in turn. */
  method BuildUrl(path: string, params: Option<seq<(string, string)>>) returns (url: string)
    ensures params.None? ==> url == path
    ensures params.Some? ==> url == Substitute(path, params.value)
  {
    url := path;
    if params.Some? {
      var entries := params.value;
      for k := 0 to |entries|
        invariant url == Substitute(path, entries[..k])
      {
        var p := Placeholder(entries[k].0);
        if IndexOf(url, p).Some? {
          url := Replace(url, p, entries[k].1);
        }
        assert entries[..k + 1][..k] == entries[..k];
      }
      assert entries[..|entries|] == entries;
    }
  }

  /** Without entries the path is returned unchanged. */
  lemma NoEntries(path: string)
    ensures Substitute(path, []) == path
  {
  }

  /** Entries are processed in order: the entries of a + b act on the url
      that the entries of a leave. */
  lemma {:induction false} SubstituteAppend(url: string, a: seq<(string, string)>, b: seq<(string, string)>)
    ensures Substitute(url, a + b) == Substitute(Substitute(url, a), b)
    decreases |b|
  {
    if b == [] {
      assert a + b == a;
    } else {
      assert (a + b)[..|a + b| - 1] == a + b[..|b| - 1];
      SubstituteAppend(url, a, b[..|b| - 1]);
    }
  }

  /** Entries none of whose placeholders occurs leave the url unchanged. */
  lemma {:induction false} AbsentUnchanged(url: string, entries: seq<(string, string)>)
    requires forall k :: 0 <= k < |entries| ==> !Contains(url, Placeholder(entries[k].0))
    ensures Substitute(url, entries) == url
    decreases |entries|
  {
    if entries != [] {
      AbsentUnchanged(url, entries[..|entries| - 1]);
    }
  }

  /** Only the first occurrence is replaced: a later copy of the placeholder
      survives the replacement, shifted by the change in length. */
  lemma FirstOnly(url: string, key: string, value: string, i: int, j: int)
    requires FirstAt(url, Placeholder(key), i) && OccursAt(url, Placeholder(key), j) && i + |key| + 1 <= j
    requires '$' !in value
    ensures OccursAt(SubstituteOne(url, (key, value)), Placeholder(key), j - |key| - 1 + |value|)
  {
    SubstituteOneAt(url, (key, value), i);
    SpliceOccurs(url, Placeholder(key), value, i, i + |key| + 1, j, j - |key| - 1 + |value|);
  }

  /** Cutting the occurrence of p at i (ending at e) out of s and putting v in
      its place moves a later occurrence at j to k = j - |p| + |v|. */
  lemma SpliceOccurs(s: string, p: string, v: string, i: int, e: int, j: int, k: int)
    requires OccursAt(s, p, i) && OccursAt(s, p, j) && e == i + |p| <= j && k == j - |p| + |v|
    ensures OccursAt(s[..i] + v + s[e..], p, k)
  {
    var front, back := s[..i] + v, s[e..];
    var d := j - e;
    assert back[d..d + |p|] == s[j..j + |p|];
    ShiftOccurs(front, back, p, d, k);
  }

  /** An occurrence at d in y is an occurrence at k = |x| + d in x + y. */
  lemma ShiftOccurs(x: string, y: string, p: string, d: int, k: int)
    requires OccursAt(y, p, d) && k == |x| + d
    ensures OccursAt(x + y, p, k)
  {
    assert (x + y)[k..k + |p|] == y[d..d + |p|];
  }

  /** The example of the fetch hook: the algorithm route with id bubble-sort. */
  lemma AlgorithmUrl()
    ensures Substitute(AlgorithmPath, [("id", "bubble-sort")]) == "/api/algorithms/bubble-sort"
  {
    AlgorithmPlaceholder();
    AlgorithmParts();
    SubstituteSingle(AlgorithmPath, ("id", "bubble-sort"), 16);
  }

  /** Substituting a single entry whose placeholder first occurs at i, with a
      value holding no `$`. */
  lemma SubstituteSingle(url: string, e: (string, string), i: int)
    requires FirstAt(url, Placeholder(e.0), i) && '$' !in e.1
    ensures Substitute(url, [e]) == url[..i] + e.1 + url[i + |e.0| + 1..]
  {
    var none: seq<(string, string)> := [];
    assert [e][..0] == none;
    SubstituteOneAt(url, e, i);
  }

  /** `:id` first occurs in the algorithm path at position 16. */
  lemma AlgorithmPlaceholder()
    ensures FirstAt(AlgorithmPath, Placeholder("id"), 16)
  {
    var s, p := AlgorithmPath, Placeholder("id");
    assert p == ":id";
    assert OccursAt(s, p, 16);
    forall j | 0 <= j < 16 ensures !OccursAt(s, p, j) {
      assert s[j] != ':';
      if j + |p| <= |s| {
        assert s[j..j + |p|][0] == s[j];
      }
    }
  }

  lemma AlgorithmParts()
    ensures AlgorithmPath[..16] + "bubble-sort" + AlgorithmPath[19..] == "/api/algorithms/bubble-sort"
    ensures '$' !in "bubble-sort"
  {
    assert AlgorithmPath[..16] == "/api/algorithms/" && AlgorithmPath[19..] == "";
  }
}
