/** That ids without collisions exist, and a repository in which a series cannot be applied to the main branch. */
module Ids {
  import opened Wrappers
  import opened Text
  import opened Commits
  import opened Events
  import opened Replay

  // ---------------------------------------------------------------- texts that can be told apart

  function Unary(n: nat): string {
    if n == 0 then "b" else "a" + Unary(n - 1)
  }

  function Spell(s: string): string {
    if s == "" then "c" else Unary(s[0] as int) + Spell(s[1..])
  }

  function SpellAll(ss: seq<string>): string {
    if ss == [] then "d" else Spell(ss[0]) + SpellAll(ss[1..])
  }

  function SpellLists(lists: seq<seq<string>>): string {
    if lists == [] then "" else SpellAll(lists[0]) + SpellLists(lists[1..])
  }

  lemma {:induction false} UnarySplit(n: nat, m: nat, x: string, y: string)
    requires Unary(n) + x == Unary(m) + y
    ensures n == m && x == y
  {
    var s, t := Unary(n) + x, Unary(m) + y;
    assert s[0] == (if n == 0 then 'b' else 'a') && t[0] == (if m == 0 then 'b' else 'a');
    if n == 0 {
      assert x == s[1..] && y == t[1..];
    } else {
      assert s[1..] == Unary(n - 1) + x && t[1..] == Unary(m - 1) + y;
      UnarySplit(n - 1, m - 1, x, y);
    }
  }

  lemma {:induction false} UnaryStarts(n: nat)
    ensures Unary(n) != "" && Unary(n)[0] in "ab"
  {
    assert "ab"[0] == 'a' && "ab"[1] == 'b';
  }

  lemma {:induction false} SpellSplit(s: string, t: string, x: string, y: string)
    requires Spell(s) + x == Spell(t) + y
    ensures s == t && x == y
  {
    if s == "" || t == "" {
      SpellEnds(s, x);
      SpellEnds(t, y);
      assert x == (Spell(s) + x)[1..] && y == (Spell(t) + y)[1..];
    } else {
      var c, d := s[0] as int, t[0] as int;
      assert Spell(s) + x == Unary(c) + (Spell(s[1..]) + x) && Spell(t) + y == Unary(d) + (Spell(t[1..]) + y);
      UnarySplit(c, d, Spell(s[1..]) + x, Spell(t[1..]) + y);
      SpellSplit(s[1..], t[1..], x, y);
      assert s == [s[0]] + s[1..] && t == [t[0]] + t[1..];
    }
  }

  lemma {:induction false} SpellEnds(s: string, x: string)
    ensures Spell(s) != "" && Spell(s)[0] in "abc" && ((Spell(s) + x)[0] == 'c' <==> s == "")
  {
    assert "ab"[0] == 'a' && "ab"[1] == 'b' && "abc"[0] == 'a' && "abc"[1] == 'b' && "abc"[2] == 'c';
    if s != "" {
      UnaryStarts(s[0] as int);
    }
  }

  lemma {:induction false} SpellAllSplit(ss: seq<string>, ts: seq<string>, x: string, y: string)
    requires SpellAll(ss) + x == SpellAll(ts) + y
    ensures ss == ts && x == y
  {
    hide *;
    if ss == [] || ts == [] {
      SpellAllEnds(ss, x);
      SpellAllEnds(ts, y);
    } else {
      SpellAllNext(ss, x);
      SpellAllNext(ts, y);
      SpellSplit(ss[0], ts[0], SpellAll(ss[1..]) + x, SpellAll(ts[1..]) + y);
      SpellAllSplit(ss[1..], ts[1..], x, y);
      assert ss == [ss[0]] + ss[1..] && ts == [ts[0]] + ts[1..];
    }
  }

  lemma {:induction false} SpellAllNext(ss: seq<string>, x: string)
    requires ss != []
    ensures SpellAll(ss) + x == Spell(ss[0]) + (SpellAll(ss[1..]) + x)
  {}

  lemma {:induction false} SpellAllEnds(ss: seq<string>, x: string)
    ensures SpellAll(ss) != "" && ((SpellAll(ss) + x)[0] == 'd' <==> ss == [])
    ensures ss == [] ==> (SpellAll(ss) + x)[1..] == x
  {
    assert "abc"[0] == 'a' && "abc"[1] == 'b' && "abc"[2] == 'c';
    if ss != [] {
      SpellEnds(ss[0], SpellAll(ss[1..]));
    }
  }

  lemma {:induction false} SpellListsInjective(a: seq<seq<string>>, b: seq<seq<string>>)
    requires |a| == |b| && SpellLists(a) == SpellLists(b)
    ensures a == b
  {
    if a != [] {
      SpellAllSplit(a[0], b[0], SpellLists(a[1..]), SpellLists(b[1..]));
      SpellListsInjective(a[1..], b[1..]);
      assert a == [a[0]] + a[1..] && b == [b[0]] + b[1..];
    }
  }

  lemma {:induction false} UnaryIsHex(n: nat)
    ensures IsHex(Unary(n))
  {
    if n > 0 {
      UnaryIsHex(n - 1);
    }
  }

  lemma {:induction false} SpellIsHex(s: string)
    ensures IsHex(Spell(s))
  {
    if s != "" {
      UnaryIsHex(s[0] as int);
      SpellIsHex(s[1..]);
    }
  }

  lemma {:induction false} SpellAllIsHex(ss: seq<string>)
    ensures IsHex(SpellAll(ss))
  {
    if ss != [] {
      SpellIsHex(ss[0]);
      SpellAllIsHex(ss[1..]);
    }
  }

  lemma {:induction false} SpellListsIsHex(lists: seq<seq<string>>)
    ensures IsHex(SpellLists(lists))
  {
    if lists != [] {
      SpellAllIsHex(lists[0]);
      SpellListsIsHex(lists[1..]);
    }
  }

  // ---------------------------------------------------------------- an id for every commit

  ghost predicate Lists(tree: Tree, names: seq<string>, texts: seq<string>) {
    && |names| == |texts|
    && (forall i | 0 <= i < |names| :: names[i] in tree && tree[names[i]] == texts[i])
    && forall name | name in tree :: name in names
  }

  lemma {:induction false} ListExists(tree: Tree) returns (names: seq<string>, texts: seq<string>)
    ensures Lists(tree, names, texts)
  {
    if tree == map[] {
      return [], [];
    }
    var name :| name in tree;
    var rest := tree - {name};
    names, texts := ListExists(rest);
    names, texts := names + [name], texts + [tree[name]];
    assert names[|names| - 1] == name;
    forall other | other in tree
      ensures other in names
    {
      if other != name {
        assert other in rest;
      }
    }
  }

  lemma {:induction false} ListedOnce(a: Tree, b: Tree, names: seq<string>, texts: seq<string>)
    requires Lists(a, names, texts) && Lists(b, names, texts)
    ensures a == b
  {
    forall name
      ensures name in a <==> name in b
      ensures name in a ==> a[name] == b[name]
    {
      if name in names {
        var i :| 0 <= i < |names| && names[i] == name;
      }
    }
  }

  ghost function ListOf(tree: Tree): (list: (seq<string>, seq<string>))
    ensures Lists(tree, list.0, list.1)
  {
    assert exists names, texts :: Lists(tree, names, texts) by {
      var names, texts := ListExists(tree);
    }
    var names, texts :| Lists(tree, names, texts);
    (names, texts)
  }

  ghost function FieldsOf(c: CommitObject): seq<seq<string>> {
    [c.parents, ListOf(c.tree).0, ListOf(c.tree).1, c.author, c.committer, [c.message],
     if c.sig.Some? then [c.sig.value] else []]
  }

  ghost function Hash(c: CommitObject): Oid {
    SpellLists(FieldsOf(c))
  }

  lemma {:induction false} HashInjective(a: CommitObject, b: CommitObject)
    requires Hash(a) == Hash(b)
    ensures a == b
  {
    var x, y := FieldsOf(a), FieldsOf(b);
    SpellListsInjective(x, y);
    assert x[0] == y[0] && x[1] == y[1] && x[2] == y[2] && x[3] == y[3] && x[4] == y[4] && x[5] == y[5];
    assert x[6] == y[6] && x[5][0] == y[5][0];
    ListedOnce(a.tree, b.tree, x[1], x[2]);
  }

  lemma {:induction false} HashIsHexId(c: CommitObject)
    ensures IsHexId(Hash(c))
  {
    SpellListsIsHex(FieldsOf(c));
    SpellAllEnds(FieldsOf(c)[0], "");
  }

  ghost function Unhash(id: Oid): CommitObject {
    if exists c :: Hash(c) == id then
      var c :| Hash(c) == id;
      c
    else CommitObject([], map[], [], [], "", None)
  }

  /** A git as all replaying assumes it exists; in this one a diff is the new text of one file. */
  lemma {:induction false} GitExists() returns (git: Git)
    ensures ContentAddressed(git)
    ensures forall tree, diff :: git.Apply(tree, diff) == Some(map["file" := diff])
  {
    git := Git(c => Hash(c), id => Unhash(id), (tree, diff) => Some(map["file" := diff]));
    forall c
      ensures git.CommitOf(git.Id(c)) == c && IsHexId(git.Id(c))
    {
      HashIsHexId(c);
      assert Hash(Unhash(Hash(c))) == Hash(c);
      HashInjective(Unhash(Hash(c)), c);
    }
  }

  // ---------------------------------------------------------------- a series on the main branch

  const PERSON := ["ann", "ann@example.com", "0", "0"]

  const ROOT := CommitObject([], map[], PERSON, PERSON, "one", None)

  function Child(git: Git): CommitObject {
    CommitObject([git.Id(ROOT)], map["file" := "diff"], PERSON, PERSON, "two", None)
  }

  function ChildTags(git: Git): seq<Tag> {
    [["commit", git.Id(Child(git))], ["parent-commit", git.Id(ROOT)], ["description", "two"], ["author"] + PERSON,
     ["committer"] + PERSON]
  }

  function ChildPatch(git: Git): Event {
    Event("e", "k", 1, GitPatch, ChildTags(git), "diff")
  }

  /** The repository is at the root, on the branch `main`, with no remote branches. */
  ghost predicate AtRoot(repo: Repo)
    reads repo
  {
    && repo.Valid() && repo.git.Apply(map[], "diff") == Some(map["file" := "diff"])
    && repo.remoteBranches == map[] && repo.objects == map[repo.git.Id(ROOT) := ROOT]
    && repo.branches == map["main" := repo.git.Id(ROOT)] && repo.head == OnBranch("main")
  }

  const NAMES := ["commit", "parent-commit", "description", "author", "committer"]

  lemma {:induction false} NamesDiffer()
    ensures forall i, j | 0 <= i < j < 5 :: NAMES[i] != NAMES[j]
    ensures forall i | 0 <= i < 5 :: NAMES[i] != "commit-pgp-sig"
  {
    assert |NAMES[0]| == 6 && |NAMES[1]| == 13 && |NAMES[2]| == 11 && |NAMES[3]| == 6 && |NAMES[4]| == 9;
    assert NAMES[0][0] == 'c' && NAMES[3][0] == 'a' && |"commit-pgp-sig"| == 14;
  }

  lemma {:induction false} TagsNamed(git: Git)
    ensures var tags := ChildTags(git);
      |tags| == |NAMES| == 5 && forall i | 0 <= i < 5 :: tags[i] != [] && tags[i][0] == NAMES[i]
  {}

  lemma {:induction false} TagFound(git: Git, i: nat)
    requires i < 5
    ensures |NAMES| == 5 && |ChildTags(git)| == 5
    ensures FirstNamed(ChildTags(git), NAMES[i]) == Some(ChildTags(git)[i])
  {
    TagsNamed(git);
    NamesDiffer();
    hide *;
    TagAt(ChildTags(git), NAMES[i], i);
  }

  lemma {:induction false} NoSignature(git: Git)
    ensures TagValue(ChildTags(git), "commit-pgp-sig") == None
  {
    TagsNamed(git);
    NamesDiffer();
    hide ChildTags, FirstNamed;
    TagMissing(ChildTags(git), "commit-pgp-sig");
  }

  lemma {:induction false} TagRead(patch: Event, name: string, tag: Tag)
    requires FirstNamed(patch.tags, name) == Some(tag)
    ensures |tag| > 1 ==> TagValue(patch.tags, name) == Some(tag[1])
    ensures |tag| == 5 ==> SignatureOf(patch, name) == Some(tag[1..])
  {}

  /** The tag for each name, and what it gives. */
  lemma {:induction false} ChildTag(git: Git, i: nat)
    requires i < 5
    ensures |NAMES| == 5 && |ChildTags(git)| == 5
    ensures var tag := ChildTags(git)[i];
      && (|tag| > 1 ==> TagValue(ChildPatch(git).tags, NAMES[i]) == Some(tag[1]))
      && (|tag| == 5 ==> SignatureOf(ChildPatch(git), NAMES[i]) == Some(tag[1..]))
  {
    TagFound(git, i);
    hide ChildTags, FirstNamed, TagValue, SignatureOf;
    TagRead(ChildPatch(git), NAMES[i], ChildTags(git)[i]);
  }

  lemma {:induction false} ChildTagsAre(git: Git)
    ensures var tags := ChildTags(git);
      && |NAMES| == |tags| == 5 && NAMES[0] == "commit" && NAMES[1] == "parent-commit" && NAMES[2] == "description"
      && NAMES[3] == "author" && NAMES[4] == "committer"
      && tags[0] == ["commit", git.Id(Child(git))] && tags[1] == ["parent-commit", git.Id(ROOT)]
      && tags[2] == ["description", "two"] && tags[3] == ["author"] + PERSON && tags[4] == ["committer"] + PERSON
    ensures |PERSON| == 4 && (["author"] + PERSON)[1..] == PERSON && (["committer"] + PERSON)[1..] == PERSON
  {}

  lemma {:induction false} ChildDescribed(git: Git)
    ensures Describes(git, ChildPatch(git), Child(git))
  {
    ChildTag(git, 0);
    ChildTag(git, 1);
    ChildTag(git, 2);
    ChildTag(git, 3);
    ChildTag(git, 4);
    ChildTagsAre(git);
    NoSignature(git);
    hide ChildTags, TagValue, SignatureOf, NAMES, PERSON;
    assert CommitIdOf(ChildPatch(git)) == Some(git.Id(Child(git)));
    assert SigText(ChildPatch(git)) == "";
  }

  lemma {:induction false} TagAt(tags: seq<Tag>, name: string, i: nat)
    requires i < |tags| && tags[i] != [] && tags[i][0] == name
    requires forall j | 0 <= j < i :: tags[j] == [] || tags[j][0] != name
    ensures FirstNamed(tags, name) == Some(tags[i])
  {
    if i > 0 {
      TagAt(tags[1..], name, i - 1);
    }
  }

  lemma {:induction false} TagMissing(tags: seq<Tag>, name: string)
    requires forall j | 0 <= j < |tags| :: tags[j] == [] || tags[j][0] != name
    ensures FirstNamed(tags, name) == None
  {
    if tags != [] {
      TagMissing(tags[1..], name);
    }
  }

  /** The patch is a series on the root that the branch does not hold. */
  lemma {:induction false} ChildIsMissing(git: Git, objects: Objects, present: nat)
    requires ValidObjects(git, objects) && objects == map[git.Id(ROOT) := ROOT]
    requires git.Apply(map[], "diff") == Some(map["file" := "diff"])
    ensures DescribesSeries(git, objects, [ChildPatch(git)], [Child(git)])
    ensures PresentIn(git, objects, Some(git.Id(ROOT)), [Child(git)], present) ==> present == 0
  {
    ChildDescribed(git);
    var id := git.Id(Child(git));
    assert git.CommitOf(id) == Child(git) && git.CommitOf(git.Id(ROOT)) == ROOT;
    if HeldBy(objects, Some(git.Id(ROOT)), id) {
      ReachedIsHeld(GraphOf(objects), git.Id(ROOT), id);
    }
    assert !HeldBy(objects, Some(git.Id(ROOT)), git.Id([Child(git)][0]));
  }

  /** Applying that patch to `main`, which is checked out and cannot be left for another main branch, fails. */
  method ApplyOnMain(repo: Repo) returns (r: Result<seq<Event>, ReplayError>)
    requires AtRoot(repo)
    modifies repo
    ensures DescribesSeries(repo.git, old(repo.objects), [ChildPatch(repo.git)], [Child(repo.git)])
    ensures r.Err?
  {
    ghost var originals := [Child(repo.git)];
    var chain := [ChildPatch(repo.git)];
    ghost var before := repo.objects;
    ghost var present;
    assert Reversed(chain) == chain;
    assert repo.TipOfBranch("main") == Some(repo.git.Id(ROOT)) && !repo.CanLeave("main");
    r, present := repo.ApplyPatchChain("main", chain, originals);
    ChildIsMissing(repo.git, before, present);
  }

  /** There is such a repository. */
  method RootRepo(git: Git) returns (repo: Repo)
    requires ContentAddressed(git) && git.Apply(map[], "diff") == Some(map["file" := "diff"])
    ensures fresh(repo) && AtRoot(repo)
  {
    var id := git.Id(ROOT);
    repo := new Repo(git, map[], map[id := ROOT], map["main" := id], OnBranch("main"));
  }
}
