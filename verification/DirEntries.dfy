/** A directory as a sequence of entries, and the finite map from names to
    inodes that it stands for. */
module DirEntries {
  import opened Constants
  import opened Components
  import opened DirLayout

  /** An entry on disk: free if it names no inode.  The name is padded with
      NULs, and not terminated if it is of the maximum length. */
  datatype Dirent = Dirent(inode: nat, acName: seq<char>) {
    predicate Live() {
      inode != INODE_INVALID
    }

    function Name(): Name {
      Text(acName)
    }
  }

  function Padded(name: Name): seq<char>
    requires |name| <= NAME_MAX
  {
    name + seq(NAME_MAX - |name|, _ => NUL)
  }

  const FREE: Dirent := Dirent(INODE_INVALID, Padded(""))

  ghost predicate WellFormed(e: Dirent) {
    |e.acName| == NAME_MAX && (e.Live() ==> ProperName(e.Name()) && e.acName == Padded(e.Name()))
  }

  lemma {:induction false} TextBefore(s: seq<char>, n: nat)
    requires n <= |s| && NUL !in s[..n] && (n < |s| ==> s[n] == NUL)
    ensures Text(s) == s[..n]
  {
    if n > 0 {
      assert s[0] == s[..n][0] && s[1..][..n - 1] == s[..n][1..];
      TextBefore(s[1..], n - 1);
    }
  }

  lemma PaddedText(name: Name)
    requires |name| <= NAME_MAX && Terminatorless(name)
    ensures Text(Padded(name)) == name
  {
    assert Padded(name)[..|name|] == name;
    TextBefore(Padded(name), |name|);
  }

  /** The comparison that RedDirEntryLookup() makes. */
  predicate Matches(e: Dirent, sought: seq<char>, length: nat) {
    SameUpTo(e.acName, sought, 0, length) && (length == NAME_MAX || At(e.acName, length) == NUL)
  }

  /** The comparison decides equality of names. */
  lemma MatchIsEquality(e: Dirent, sought: seq<char>)
    requires WellFormed(e) && e.Live() && 1 <= NameEnd(sought, 0) <= NAME_MAX
    ensures Matches(e, sought, NameEnd(sought, 0)) <==> e.Name() == sought[..NameEnd(sought, 0)]
  {
    var n := NameEnd(sought, 0);
    SameUpToIs(e.acName, sought, 0, n);
    if Matches(e, sought, n) {
      TextBefore(e.acName, n);
    }
  }

  /** Entry `i` binds the name. */
  ghost predicate Binds(es: seq<Dirent>, i: int, name: Name) {
    0 <= i < |es| && es[i].Live() && es[i].Name() == name
  }

  ghost predicate UniqueNames(es: seq<Dirent>) {
    forall i, j, name {:trigger Binds(es, i, name), Binds(es, j, name)} :: Binds(es, i, name) && Binds(es, j, name) ==> i == j
  }

  /** The map that a sequence of entries stands for. */
  function Bindings(es: seq<Dirent>): map<Name, nat> {
    if es == [] then
      map[]
    else
      var last := es[|es| - 1];
      var others := Bindings(es[..|es| - 1]);
      if last.Live() then others[last.Name() := last.inode] else others
  }

  lemma {:induction false} BindingsAt(es: seq<Dirent>, i: nat)
    requires UniqueNames(es) && i < |es| && es[i].Live()
    ensures es[i].Name() in Bindings(es) && Bindings(es)[es[i].Name()] == es[i].inode
  {
    var n := |es| - 1;
    if i < n {
      PrefixUnique(es);
      BindingsAt(es[..n], i);
      assert Binds(es, i, es[i].Name());
      assert es[n].Live() ==> Binds(es, n, es[n].Name());
    }
  }

  lemma PrefixUnique(es: seq<Dirent>)
    requires UniqueNames(es) && es != []
    ensures UniqueNames(es[..|es| - 1])
  {
    var rest := es[..|es| - 1];
    forall i, j, name | Binds(rest, i, name) && Binds(rest, j, name)
      ensures i == j
    {
      assert Binds(es, i, name) && Binds(es, j, name);
    }
  }

  lemma {:induction false} BindingsFrom(es: seq<Dirent>, name: Name) returns (i: nat)
    requires name in Bindings(es)
    ensures Binds(es, i, name)
  {
    var n := |es| - 1;
    if es[n].Live() && es[n].Name() == name {
      i := n;
    } else {
      i := BindingsFrom(es[..n], name);
      assert es[..n][i] == es[i];
    }
  }

  /** A name is bound by the map exactly if an entry binds it, to its inode. */
  lemma BindingsIs(es: seq<Dirent>, bindings: map<Name, nat>)
    requires UniqueNames(es)
    requires forall i, name {:trigger Binds(es, i, name)} | Binds(es, i, name) :: name in bindings && bindings[name] == es[i].inode
    requires forall name | name in bindings :: exists i :: Binds(es, i, name)
    ensures Bindings(es) == bindings
  {
    forall name | name in Bindings(es)
      ensures name in bindings && bindings[name] == Bindings(es)[name]
    {
      var i := BindingsFrom(es, name);
      BindingsAt(es, i);
    }
    forall name | name in bindings
      ensures name in Bindings(es)
    {
      var i :| Binds(es, i, name);
      BindingsAt(es, i);
    }
  }

  /** Entry `i` written: within the directory or just after it. */
  function Written(es: seq<Dirent>, i: nat, e: Dirent): seq<Dirent>
    requires i <= |es|
  {
    if i < |es| then es[i := e] else es + [e]
  }

  /** Writing a free entry adds a binding. */
  lemma WrittenAdds(es: seq<Dirent>, i: nat, e: Dirent)
    requires UniqueNames(es) && i <= |es| && (i < |es| ==> !es[i].Live())
    requires e.Live() && e.Name() !in Bindings(es)
    ensures UniqueNames(Written(es, i, e))
    ensures Bindings(Written(es, i, e)) == Bindings(es)[e.Name() := e.inode]
  {
    var now := Written(es, i, e);
    var after := Bindings(es)[e.Name() := e.inode];
    forall k, name | Binds(now, k, name) && k != i
      ensures Binds(es, k, name) && name in Bindings(es) && Bindings(es)[name] == es[k].inode
    {
      BindingsAt(es, k);
    }
    forall name | name in after
      ensures exists k :: Binds(now, k, name)
    {
      if name == e.Name() {
        assert Binds(now, i, name);
      } else {
        var k := BindingsFrom(es, name);
        assert Binds(now, k, name);
      }
    }
    BindingsIs(now, after);
  }

  /** Overwriting an entry under its own name changes its binding. */
  lemma WrittenReplaces(es: seq<Dirent>, i: nat, e: Dirent)
    requires UniqueNames(es) && i < |es| && es[i].Live() && e.Live() && e.Name() == es[i].Name()
    ensures UniqueNames(es[i := e])
    ensures Bindings(es[i := e]) == Bindings(es)[e.Name() := e.inode]
  {
    var now := es[i := e];
    var after := Bindings(es)[e.Name() := e.inode];
    forall k, name | Binds(now, k, name)
      ensures Binds(es, k, name)
      ensures name in Bindings(es) && (k != i ==> name != e.Name() && Bindings(es)[name] == es[k].inode)
    {
      BindingsAt(es, k);
      assert Binds(es, i, e.Name());
      assert Binds(es, k, name);
    }
    forall name | name in after
      ensures exists k :: Binds(now, k, name)
    {
      if name == e.Name() {
        assert Binds(now, i, name);
      } else {
        var k := BindingsFrom(es, name);
        assert Binds(now, k, name);
      }
    }
    BindingsIs(now, after);
  }

  /** Freeing an entry removes its binding. */
  lemma FreedRemoves(es: seq<Dirent>, i: nat)
    requires UniqueNames(es) && i < |es|
    ensures UniqueNames(es[i := FREE])
    ensures Bindings(es[i := FREE]) == if es[i].Live() then Bindings(es) - {es[i].Name()} else Bindings(es)
  {
    var now := es[i := FREE];
    var left := if es[i].Live() then Bindings(es) - {es[i].Name()} else Bindings(es);
    forall k, name | Binds(now, k, name)
      ensures Binds(es, k, name) && name in left && left[name] == es[k].inode
    {
      BindingsAt(es, k);
      assert Binds(es, k, name);
      if es[i].Live() {
        assert Binds(es, i, es[i].Name());
      }
    }
    forall name | name in left
      ensures exists k :: Binds(now, k, name)
    {
      var k := BindingsFrom(es, name);
      assert Binds(now, k, name);
    }
    BindingsIs(now, left);
  }

  /** The entries without the free ones at the end. */
  function Trimmed(es: seq<Dirent>): seq<Dirent> {
    if es == [] || es[|es| - 1].Live() then es else Trimmed(es[..|es| - 1])
  }

  lemma {:induction false} TrimmedKeeps(es: seq<Dirent>)
    requires UniqueNames(es)
    ensures Bindings(Trimmed(es)) == Bindings(es) && UniqueNames(Trimmed(es))
    ensures Trimmed(es) <= es && (Trimmed(es) != [] ==> Trimmed(es)[|Trimmed(es)| - 1].Live())
  {
    if es != [] && !es[|es| - 1].Live() {
      PrefixUnique(es);
      TrimmedKeeps(es[..|es| - 1]);
    }
  }

  lemma {:induction false} TrimmedIs(es: seq<Dirent>, n: nat)
    requires n <= |es| && (n > 0 ==> es[n - 1].Live())
    requires forall k | n <= k < |es| :: !es[k].Live()
    ensures Trimmed(es) == es[..n]
  {
    if n < |es| {
      assert es[..|es| - 1][..n] == es[..n];
      TrimmedIs(es[..|es| - 1], n);
    } else {
      assert es[..n] == es;
    }
  }

  /** The first free entry at or after `i`, or the count of entries. */
  function FirstFree(es: seq<Dirent>, i: nat): (free: nat)
    requires i <= |es|
    ensures i <= free <= |es| && (free < |es| ==> !es[free].Live())
    ensures forall k | i <= k < free :: es[k].Live()
    decreases |es| - i
  {
    if i < |es| && es[i].Live() then FirstFree(es, i + 1) else i
  }

  /** The first live entry at or after `i`, or the count of entries. */
  function NextLive(es: seq<Dirent>, i: nat): (live: nat)
    requires i <= |es|
    ensures i <= live <= |es| && (live < |es| ==> es[live].Live())
    ensures forall k | i <= k < live :: !es[k].Live()
    decreases |es| - i
  {
    if i < |es| && !es[i].Live() then NextLive(es, i + 1) else i
  }

  datatype Listed = Listed(name: Name, inode: nat)

  /** What reading a directory from index `i` on lists. */
  function Listing(es: seq<Dirent>, i: nat): seq<Listed>
    requires i <= |es|
    decreases |es| - i
  {
    var live := NextLive(es, i);
    if live == |es| then [] else [Listed(es[live].Name(), es[live].inode)] + Listing(es, live + 1)
  }

  lemma {:induction false} ListedAre(es: seq<Dirent>, i: nat, k: nat) returns (at: nat)
    requires i <= |es| && k < |Listing(es, i)|
    ensures i <= at && Binds(es, at, Listing(es, i)[k].name) && es[at].inode == Listing(es, i)[k].inode
    decreases k
  {
    if k == 0 {
      at := NextLive(es, i);
    } else {
      at := ListedAre(es, NextLive(es, i) + 1, k - 1);
    }
  }

  lemma {:induction false} ListsAll(es: seq<Dirent>, i: nat, at: nat) returns (k: nat)
    requires i <= at < |es| && es[at].Live()
    ensures k < |Listing(es, i)| && Listing(es, i)[k] == Listed(es[at].Name(), es[at].inode)
    decreases |es| - i
  {
    var live := NextLive(es, i);
    if at == live {
      k := 0;
    } else {
      k := ListsAll(es, live + 1, at);
      k := k + 1;
    }
  }

  lemma {:induction false} ListsApart(es: seq<Dirent>, i: nat, k: nat, l: nat)
    requires UniqueNames(es) && i <= |es| && k < l < |Listing(es, i)|
    ensures Listing(es, i)[k].name != Listing(es, i)[l].name
    decreases |es| - i
  {
    var live := NextLive(es, i);
    if k == 0 {
      var at := ListedAre(es, live + 1, l - 1);
      assert Binds(es, live, es[live].Name());
    } else {
      ListsApart(es, live + 1, k - 1, l - 1);
    }
  }

  /** Reading a directory from its start lists every binding exactly once. */
  lemma ListingIsBindings(es: seq<Dirent>)
    requires UniqueNames(es)
    ensures forall k | 0 <= k < |Listing(es, 0)| :: Listing(es, 0)[k].name in Bindings(es)
    ensures forall k | 0 <= k < |Listing(es, 0)| :: Bindings(es)[Listing(es, 0)[k].name] == Listing(es, 0)[k].inode
    ensures forall name | name in Bindings(es) :: Listed(name, Bindings(es)[name]) in Listing(es, 0)
    ensures forall k, l | 0 <= k < l < |Listing(es, 0)| :: Listing(es, 0)[k].name != Listing(es, 0)[l].name
  {
    forall k | 0 <= k < |Listing(es, 0)|
      ensures Listing(es, 0)[k].name in Bindings(es) && Bindings(es)[Listing(es, 0)[k].name] == Listing(es, 0)[k].inode
    {
      var at := ListedAre(es, 0, k);
      BindingsAt(es, at);
    }
    forall name | name in Bindings(es)
      ensures Listed(name, Bindings(es)[name]) in Listing(es, 0)
    {
      var at := BindingsFrom(es, name);
      BindingsAt(es, at);
      var k := ListsAll(es, 0, at);
    }
    forall k, l | 0 <= k < l < |Listing(es, 0)|
      ensures Listing(es, 0)[k].name != Listing(es, 0)[l].name
    {
      ListsApart(es, 0, k, l);
    }
  }

  /** What holds of the entries of every directory: names are proper and no two
      the same, the last entry is live, and there are at most DIRENTS_MAX. */
  ghost predicate Packed(es: seq<Dirent>) {
    && (forall e | e in es :: WellFormed(e))
    && UniqueNames(es)
    && (es == [] || es[|es| - 1].Live())
    && |es| <= DIRENTS_MAX
  }
}
