/** Connection groups and the folder path each one is imported under. */
module GroupPaths {
  import opened Prelude

  datatype Group = Group(id: int, parent: Option<int>, name: string)

  type Groups = map<int, Group>

  const MAX_NAME: nat := 64

  // ---------------------------------------------------------------- names

  predicate IsNameChar(c: char) {
    || 'a' <= c <= 'z' || 'A' <= c <= 'Z' || '0' <= c <= '9'
    || c == '-' || c == '_' || c == '.'
  }

  /** A folder name that Vault accepts: 1 to 64 characters, none of them a slash. */
  predicate IsName(s: string) {
    1 <= |s| <= MAX_NAME && forall c | c in s :: IsNameChar(c)
  }

  /** Spaces become hyphens; other characters that a name cannot hold are dropped. */
  function KeepNameChars(s: string): (r: string)
    ensures |r| <= |s| && forall c | c in r :: IsNameChar(c)
  {
    if s == [] then []
    else if s[0] == ' ' then "-" + KeepNameChars(s[1..])
    else if IsNameChar(s[0]) then [s[0]] + KeepNameChars(s[1..])
    else KeepNameChars(s[1..])
  }

  function Sanitize(name: string): (r: string)
    ensures IsName(r)
  {
    var kept := KeepNameChars(name);
    var cut := if |kept| > MAX_NAME then kept[..MAX_NAME] else kept;
    if cut == [] then "unnamed" else cut
  }

  /** The places of the characters that are kept: spaces, and those a name can hold. */
  function KeptAt(s: string): (at: seq<nat>)
    ensures forall k | 0 <= k < |at| :: at[k] < |s|
    ensures forall j, k | 0 <= j < k < |at| :: at[j] < at[k]
    ensures forall k | 0 <= k < |s| :: k in at <==> s[k] == ' ' || IsNameChar(s[k])
  {
    if s == [] then [] else
      var n := |s| - 1;
      var before := KeptAt(s[..n]);
      assert forall k | 0 <= k < n :: s[..n][k] == s[k];
      if s[n] == ' ' || IsNameChar(s[n]) then before + [n] else before
  }

  function KeptChar(c: char): char {
    if c == ' ' then '-' else c
  }

  lemma {:induction false} KeepSnoc(s: string, c: char)
    ensures KeepNameChars(s + [c]) ==
            KeepNameChars(s) + if c == ' ' || IsNameChar(c) then [KeptChar(c)] else []
  {
    hide IsNameChar;
    if s == [] {
      assert s + [c] == [c] && [c][1..] == [];
    } else {
      assert (s + [c])[1..] == s[1..] + [c];
      KeepSnoc(s[1..], c);
    }
  }

  function PickKept(s: string, at: seq<nat>): string
    requires forall k | 0 <= k < |at| :: at[k] < |s|
  {
    seq(|at|, k requires 0 <= k < |at| => KeptChar(s[at[k]]))
  }

  lemma PickSnoc(s: string, c: char, at: seq<nat>)
    requires forall k | 0 <= k < |at| :: at[k] < |s|
    ensures PickKept(s + [c], at) == PickKept(s, at)
    ensures PickKept(s + [c], at + [|s|]) == PickKept(s, at) + [KeptChar(c)]
  {
    hide KeptChar;
  }

  lemma KeptAtSnoc(s: string, c: char)
    ensures KeptAt(s + [c]) == KeptAt(s) + if c == ' ' || IsNameChar(c) then [|s|] else []
  {
    hide IsNameChar;
    assert (s + [c])[..|s|] == s;
  }

  lemma {:induction false} KeptIs(s: string)
    ensures KeepNameChars(s) == PickKept(s, KeptAt(s))
    decreases |s|
  {
    hide IsNameChar, KeptAt, KeepNameChars, PickKept, KeptChar;
    if s == [] {
      NothingKept();
    } else {
      var front, c := s[..|s| - 1], s[|s| - 1];
      assert s == front + [c];
      KeptIs(front);
      KeepSnoc(front, c);
      KeptAtSnoc(front, c);
      PickSnoc(front, c, KeptAt(front));
      assert KeptAt(front) + [] == KeptAt(front) && KeepNameChars(front) + [] == KeepNameChars(front);
    }
  }

  lemma NothingKept()
    ensures KeepNameChars([]) == PickKept([], KeptAt([]))
  {
  }

  /**
   A sanitized name is the kept characters in order, a hyphen for each space, cut to 64; and it is
   `unnamed` exactly when no character is kept or the kept ones spell it.
   */
  lemma SanitizeExact(name: string)
    ensures var at := KeptAt(name);
            var kept := seq(|at|, k requires 0 <= k < |at| => if name[at[k]] == ' ' then '-' else name[at[k]]);
            Sanitize(name) == if at == [] then "unnamed" else if |at| > 64 then kept[..64] else kept
  {
    hide IsNameChar, KeptAt, KeepNameChars;
    KeptIs(name);
    var at := KeptAt(name);
    assert PickKept(name, at) == seq(|at|, k requires 0 <= k < |at| => if name[at[k]] == ' ' then '-' else name[at[k]]);
  }

  /** A name that is already acceptable is left alone. */
  lemma SanitizeName(name: string)
    requires IsName(name)
    ensures Sanitize(name) == name
  {
    KeepAll(name);
  }

  lemma {:induction false} KeepAll(s: string)
    requires forall c | c in s :: IsNameChar(c)
    ensures KeepNameChars(s) == s
  {
    if s != [] {
      assert s[0] in s && forall c | c in s[1..] :: c in s;
      KeepAll(s[1..]);
    }
  }

  // ---------------------------------------------------------------- ancestors

  /** The parent of a group, when the dump has it. */
  function ParentIn(g: Groups, id: int): (p: Option<int>)
    ensures p.Some? <==> id in g && g[id].parent.Some? && g[id].parent.value in g
    ensures p.Some? ==> p.value in g && g[id].parent == p
  {
    if id in g && g[id].parent.Some? && g[id].parent.value in g then g[id].parent else None
  }

  function Ancestor(g: Groups, id: int, n: nat): Option<int>
    decreases n
  {
    if n == 0 then Some(id) else
    match ParentIn(g, id)
    case None => None
    case Some(p) => Ancestor(g, p, n - 1)
  }

  /** No group is its own proper ancestor. */
  ghost predicate Acyclic(g: Groups) {
    forall id, n: nat | id in g && n > 0 :: Ancestor(g, id, n) != Some(id)
  }

  lemma {:induction false} AncestorAdd(g: Groups, id: int, m: nat, n: nat)
    requires Ancestor(g, id, m).Some?
    ensures Ancestor(g, id, m + n) == Ancestor(g, Ancestor(g, id, m).value, n)
    decreases m
  {
    if m > 0 {
      AncestorAdd(g, ParentIn(g, id).value, m - 1, n);
    }
  }

  lemma {:induction false} AncestorIn(g: Groups, id: int, n: nat)
    requires id in g && Ancestor(g, id, n).Some?
    ensures Ancestor(g, id, n).value in g
    decreases n
  {
    if n > 0 {
      AncestorIn(g, ParentIn(g, id).value, n - 1);
    }
  }

  /** On a cycle the ancestors never run out, so the recursion of the importer does not end. */
  lemma {:induction false} CycleNeverEnds(g: Groups, id: int, n: nat, m: nat)
    requires n > 0 && Ancestor(g, id, n) == Some(id)
    ensures Ancestor(g, id, m).Some?
    decreases m
  {
    if m >= n {
      CycleNeverEnds(g, id, n, m - n);
      AncestorAdd(g, id, n, m - n);
    } else {
      AncestorPrefix(g, id, m, n);
    }
  }

  lemma {:induction false} AncestorPrefix(g: Groups, id: int, m: nat, n: nat)
    requires m <= n && Ancestor(g, id, n).Some?
    ensures Ancestor(g, id, m).Some?
    decreases m
  {
    if m > 0 {
      AncestorPrefix(g, ParentIn(g, id).value, m - 1, n - 1);
    }
  }

  /** A group and its first `n` ancestors, as a set. */
  ghost function Lineage(g: Groups, id: int, n: nat): set<int>
    requires Ancestor(g, id, n).Some?
    decreases n
  {
    if n == 0 then {id} else {id} + Lineage(g, ParentIn(g, id).value, n - 1)
  }

  lemma {:induction false} LineageMember(g: Groups, id: int, n: nat, x: int) returns (k: nat)
    requires Ancestor(g, id, n).Some? && x in Lineage(g, id, n)
    ensures k <= n && Ancestor(g, id, k) == Some(x)
    decreases n
  {
    if x == id {
      k := 0;
    } else {
      var j := LineageMember(g, ParentIn(g, id).value, n - 1, x);
      k := j + 1;
    }
  }

  lemma {:induction false} LineageSize(g: Groups, id: int, n: nat)
    requires Acyclic(g) && id in g && Ancestor(g, id, n).Some?
    ensures Lineage(g, id, n) <= g.Keys && |Lineage(g, id, n)| == n + 1
    decreases n
  {
    if n > 0 {
      var p := ParentIn(g, id).value;
      LineageSize(g, p, n - 1);
      forall k: nat ensures Ancestor(g, p, k) != Some(id) {
        assert Ancestor(g, id, k + 1) == Ancestor(g, p, k);
      }
      if id in Lineage(g, p, n - 1) {
        var k := LineageMember(g, p, n - 1, id);
        assert false;
      }
    }
  }

  lemma SubsetSize(a: set<int>, b: set<int>)
    requires a <= b
    ensures |a| <= |b|
  {
    assert b == a + (b - a);
  }

  /** Without cycles, no group has as many ancestors as there are groups. */
  lemma AncestorsRunOut(g: Groups, id: int)
    requires Acyclic(g) && id in g
    ensures Ancestor(g, id, |g|) == None
  {
    assert |g.Keys| == |g|;
    if Ancestor(g, id, |g|).Some? {
      LineageSize(g, id, |g|);
      SubsetSize(Lineage(g, id, |g|), g.Keys);
    }
  }

  /** The ancestors of a group run out at some depth. */
  ghost predicate RunsOut(g: Groups, id: int) {
    exists n: nat :: Ancestor(g, id, n).None?
  }

  /** The recursion over parents ends for every group exactly when there is no cycle. */
  lemma EndsExactly(g: Groups)
    ensures Acyclic(g) <==> forall id | id in g :: RunsOut(g, id)
  {
    if Acyclic(g) {
      forall id | id in g ensures RunsOut(g, id) {
        AncestorsRunOut(g, id);
        assert Ancestor(g, id, |g|).None?;
      }
    } else {
      var id, n: nat :| id in g && n > 0 && Ancestor(g, id, n) == Some(id);
      forall m: nat ensures Ancestor(g, id, m).Some? {
        CycleNeverEnds(g, id, n, m);
      }
      assert !RunsOut(g, id);
    }
  }

  /** How many ancestors a group has, counting at most `fuel`. */
  ghost function HeightUpTo(g: Groups, id: int, fuel: nat): nat
    decreases fuel
  {
    if fuel == 0 || ParentIn(g, id).None? then 0 else 1 + HeightUpTo(g, ParentIn(g, id).value, fuel - 1)
  }

  lemma {:induction false} HeightStable(g: Groups, id: int, fuel: nat)
    requires fuel > 0 && Ancestor(g, id, fuel) == None
    ensures HeightUpTo(g, id, fuel - 1) == HeightUpTo(g, id, fuel)
    decreases fuel
  {
    if ParentIn(g, id).Some? {
      HeightStable(g, ParentIn(g, id).value, fuel - 1);
    }
  }

  ghost function Height(g: Groups, id: int): nat {
    HeightUpTo(g, id, |g|)
  }

  lemma HeightFalls(g: Groups, id: int)
    requires Acyclic(g) && ParentIn(g, id).Some?
    ensures Height(g, ParentIn(g, id).value) < Height(g, id)
  {
    AncestorsRunOut(g, ParentIn(g, id).value);
    HeightStable(g, ParentIn(g, id).value, |g|);
  }

  // ---------------------------------------------------------------- paths

  /** The folder names from the outermost ancestor down to the group. */
  ghost function Segments(g: Groups, id: int): (segments: seq<string>)
    requires Acyclic(g) && id in g
    ensures segments != [] && forall k | 0 <= k < |segments| :: IsName(segments[k])
    decreases Height(g, id)
  {
    var name := Sanitize(g[id].name);
    if ParentIn(g, id).None? then [name] else
      HeightFalls(g, id);
      Segments(g, ParentIn(g, id).value) + [name]
  }

  function Join(segments: seq<string>): string
    requires segments != []
  {
    var n := |segments| - 1;
    if n == 0 then segments[0] else Join(segments[..n]) + "/" + segments[n]
  }

  ghost function PathOf(g: Groups, id: int): string
    requires Acyclic(g) && id in g
  {
    Join(Segments(g, id))
  }

  /** Counted from the end, the segments are the names of the group and its ancestors, all of them. */
  lemma {:induction false} SegmentsAreAncestors(g: Groups, id: int, k: nat)
    requires Acyclic(g) && id in g
    ensures k < |Segments(g, id)| <==> Ancestor(g, id, k).Some?
    ensures k < |Segments(g, id)| ==>
              && Ancestor(g, id, k).value in g
              && Segments(g, id)[|Segments(g, id)| - 1 - k] == Sanitize(g[Ancestor(g, id, k).value].name)
    decreases k
  {
    hide Acyclic;
    if k > 0 && ParentIn(g, id).Some? {
      SegmentsAreAncestors(g, ParentIn(g, id).value, k - 1);
    }
  }

  function SplitSlash(s: string): (parts: seq<string>)
    ensures parts != []
    decreases |s|
  {
    var k := IndexOf(s, '/');
    if k == |s| then [s] else [s[..k]] + SplitSlash(s[k + 1..])
  }

  lemma {:induction false} SplitSnoc(s: string, last: string)
    requires '/' !in last
    ensures SplitSlash(s + "/" + last) == SplitSlash(s) + [last]
    decreases |s|
  {
    hide IndexOf;
    var t := s + "/" + last;
    var k := IndexOf(s, '/');
    if k == |s| {
      assert t[..k] == s && t[k + 1..] == last;
      IndexOfUnique(t, '/', k);
      assert IndexOf(last, '/') == |last|;
      assert SplitSlash(last) == [last];
    } else {
      assert t[..k] == s[..k] && t[k + 1..] == s[k + 1..] + "/" + last;
      IndexOfUnique(t, '/', k);
      SplitSnoc(s[k + 1..], last);
      Assoc([s[..k]], SplitSlash(s[k + 1..]), [last]);
    }
  }

  lemma NameHasNoSlash(s: string)
    requires IsName(s)
    ensures '/' !in s
  {
  }

  /** A path falls apart at its slashes into the segments it was made of. */
  lemma {:induction false} PathSplits(segments: seq<string>)
    requires segments != [] && forall k | 0 <= k < |segments| :: IsName(segments[k])
    ensures SplitSlash(Join(segments)) == segments
    decreases |segments|
  {
    hide IsName;
    var n := |segments| - 1;
    NameHasNoSlash(segments[n]);
    if n == 0 {
      assert SplitSlash(segments[0]) == [segments[0]];
    } else {
      PathSplits(segments[..n]);
      SplitSnoc(Join(segments[..n]), segments[n]);
      assert segments == segments[..n] + [segments[n]];
    }
  }

  lemma PathNotEmpty(g: Groups, id: int)
    requires Acyclic(g) && id in g
    ensures PathOf(g, id) != []
  {
    hide Acyclic;
    var segments := Segments(g, id);
    assert IsName(segments[|segments| - 1]);
  }

  lemma PathUnfold(g: Groups, id: int)
    requires Acyclic(g) && id in g
    ensures var name := Sanitize(g[id].name);
            PathOf(g, id) == if ParentIn(g, id).None? then name else PathOf(g, ParentIn(g, id).value) + "/" + name
  {
    hide Acyclic, Sanitize;
    var name := Sanitize(g[id].name);
    if ParentIn(g, id).Some? {
      var above := Segments(g, ParentIn(g, id).value);
      assert Segments(g, id) == above + [name];
      assert (above + [name])[..|above|] == above;
    }
  }

  // ---------------------------------------------------------------- the memoised resolver

  class PathCache {
    var paths: map<int, string>

    /** Every cached path is the one the uncached definition gives. */
    ghost predicate Valid(g: Groups)
      requires Acyclic(g)
      reads this
    {
      forall id | id in paths :: id in g && paths[id] == PathOf(g, id)
    }

    constructor ()
      ensures paths == map[]
    {
      paths := map[];
    }

    method Insert(id: int, path: string, ghost g: Groups)
      requires Acyclic(g) && Valid(g) && id in g && path == PathOf(g, id)
      modifies this
      ensures Valid(g) && paths == old(paths)[id := path]
    {
      paths := paths[id := path];
    }

    method Resolve(id: int, g: Groups) returns (path: string)
      requires Acyclic(g) && Valid(g)
      modifies this
      ensures Valid(g)
      ensures path == if id in g then PathOf(g, id) else []
      ensures id in g ==> id in paths
      ensures old(paths.Keys) <= paths.Keys
      decreases if id in g then Height(g, id) + 1 else 0
    {
      hide PathOf, Acyclic, Height, Sanitize;
      if id in paths {
        return paths[id];
      }
      if id !in g {
        return [];
      }
      var group := g[id];
      var name := Sanitize(group.name);
      PathUnfold(g, id);
      if group.parent.Some? && group.parent.value in g {
        HeightFalls(g, id);
        var parentPath := Resolve(group.parent.value, g);
        PathNotEmpty(g, group.parent.value);
        path := if parentPath == [] then name else parentPath + "/" + name;
      } else {
        path := name;
      }
      Insert(id, path, g);
    }
  }

  /** The groups by id, a later one of the same id winning. */
  function GroupMap(groups: seq<Group>): Groups {
    if groups == [] then map[] else
      var last := groups[|groups| - 1];
      GroupMap(groups[..|groups| - 1])[last.id := last]
  }

  ghost function AllPaths(g: Groups): map<int, string>
    requires Acyclic(g)
  {
    map id | id in g :: PathOf(g, id)
  }

  method BuildGroupPaths(groups: seq<Group>) returns (paths: map<int, string>)
    requires Acyclic(GroupMap(groups))
    ensures paths == AllPaths(GroupMap(groups))
  {
    hide PathOf, Acyclic, GroupMap;
    var g := GroupMap(groups);
    var cache := new PathCache();
    for i := 0 to |groups|
      invariant cache.Valid(g) && fresh(cache)
      invariant forall k | 0 <= k < i :: groups[k].id in cache.paths
    {
      var group := groups[i];
      GroupMapKeys(groups, i);
      if group.id !in cache.paths {
        var path := cache.Resolve(group.id, g);
        cache.Insert(group.id, path, g);
      }
    }
    paths := cache.paths;
    assert forall id | id in paths :: id in g;
    forall id | id in g ensures id in paths {
      var k := GroupMapSource(groups, id);
      assert groups[k].id in paths;
    }
    assert paths.Keys == g.Keys;
  }

  lemma {:induction false} GroupMapKeys(groups: seq<Group>, k: nat)
    requires k < |groups|
    ensures groups[k].id in GroupMap(groups)
  {
    var n := |groups| - 1;
    if k < n {
      GroupMapKeys(groups[..n], k);
    }
  }

  lemma {:induction false} GroupMapSource(groups: seq<Group>, id: int) returns (k: nat)
    requires id in GroupMap(groups)
    ensures k < |groups| && groups[k].id == id && GroupMap(groups)[id] == groups[k]
  {
    var n := |groups| - 1;
    if groups[n].id == id {
      k := n;
    } else {
      k := GroupMapSource(groups[..n], id);
    }
  }

  ghost predicate UniqueIds(groups: seq<Group>) {
    forall i, j | 0 <= i < j < |groups| :: groups[i].id != groups[j].id
  }

  /** With unique ids the order of the groups does not matter to the map, hence to no path. */
  lemma OrderDoesNotMatter(a: seq<Group>, b: seq<Group>)
    requires UniqueIds(a) && UniqueIds(b) && forall x :: x in a <==> x in b
    ensures GroupMap(a) == GroupMap(b)
  {
    hide GroupMap;
    OrderOneWay(a, b);
    OrderOneWay(b, a);
    var m, n := GroupMap(a), GroupMap(b);
    assert forall id | id in m :: id in n && m[id] == n[id];
    assert forall id | id in n :: id in m;
    assert m.Keys == n.Keys;
  }

  lemma OrderOneWay(a: seq<Group>, b: seq<Group>)
    requires UniqueIds(b) && forall x :: x in a ==> x in b
    ensures forall id | id in GroupMap(a) :: id in GroupMap(b) && GroupMap(a)[id] == GroupMap(b)[id]
  {
    hide GroupMap;
    forall id | id in GroupMap(a) ensures id in GroupMap(b) && GroupMap(a)[id] == GroupMap(b)[id] {
      var i := GroupMapSource(a, id);
      assert a[i] in b;
      var j :| 0 <= j < |b| && b[j] == a[i];
      GroupMapKeys(b, j);
      var k := GroupMapSource(b, id);
      assert k == j;
    }
  }
}
