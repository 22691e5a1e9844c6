/** Finding the volume of a path by its prefix: posix/path.c. */
module VolumePrefix {
  import opened Errors
  import opened Components

  /** A path, or the rest of one, matches a prefix if it starts with it and then
      ends or goes on with a separator. */
  ghost predicate Matches(path: seq<char>, prefix: seq<char>) {
    prefix != [] && prefix <= path && (|path| == |prefix| || path[|prefix|] == SEPARATOR)
  }

  /** The prefixes of the configured volumes: no two the same. */
  ghost predicate Configured(prefixes: seq<seq<char>>) {
    && (forall v | 0 <= v < |prefixes| :: NUL !in prefixes[v])
    && (forall v, w | 0 <= v < w < |prefixes| :: prefixes[v] != prefixes[w])
  }

  /** Volume `v` is that of the path: its prefix is the longest that matches,
      or it is empty and none matches. */
  ghost predicate VolumeOf(path: seq<char>, prefixes: seq<seq<char>>, v: nat) {
    && v < |prefixes|
    && if prefixes[v] == [] then
         forall w | 0 <= w < |prefixes| :: !Matches(path, prefixes[w])
       else
         Matches(path, prefixes[v])
         && forall w | 0 <= w < |prefixes| && Matches(path, prefixes[w]) :: |prefixes[w]| <= |prefixes[v]|
  }

  /** A path has at most one volume. */
  lemma OneVolume(path: seq<char>, prefixes: seq<seq<char>>, v: nat, w: nat)
    requires Configured(prefixes) && VolumeOf(path, prefixes, v) && VolumeOf(path, prefixes, w)
    ensures v == w
  {
    if prefixes[v] != [] && prefixes[w] != [] {
      assert prefixes[v] == path[..|prefixes[v]|] == prefixes[w];
    }
  }

  /** The comparison that the search makes. */
  predicate Compares(path: seq<char>, prefix: seq<char>) {
    SameUpTo(path, prefix, 0, |prefix|) && (At(path, |prefix|) == NUL || At(path, |prefix|) == SEPARATOR)
  }

  lemma {:induction false} SharedStart(path: seq<char>, prefix: seq<char>, i: nat)
    requires NUL !in path && NUL !in prefix && i <= |prefix|
    ensures SameUpTo(path, prefix, i, |prefix|) <==>
              i == |prefix| || (|prefix| <= |path| && path[i..|prefix|] == prefix[i..])
    decreases |prefix| - i
  {
    if i < |prefix| {
      SharedStart(path, prefix, i + 1);
      assert prefix[i] != NUL;
      if |prefix| <= |path| {
        assert path[i..|prefix|] == [path[i]] + path[i + 1..|prefix|] && prefix[i..] == [prefix[i]] + prefix[i + 1..];
      }
    }
  }

  lemma CompareIsMatch(path: seq<char>, prefix: seq<char>)
    requires NUL !in path && NUL !in prefix && prefix != []
    ensures Compares(path, prefix) <==> Matches(path, prefix)
  {
    SharedStart(path, prefix, 0);
    assert prefix[0..] == prefix;
  }

  /** The configured volumes, and which one is current. */
  class Volumes {
    const prefixes: seq<seq<char>>
    var current: nat

    ghost predicate Valid()
      reads this
    {
      Configured(prefixes) && current < |prefixes|
    }

    constructor (prefixes: seq<seq<char>>)
      requires Configured(prefixes) && prefixes != []
      ensures Valid() && this.prefixes == prefixes && current == 0
    {
      this.prefixes := prefixes;
      current := 0;
    }

    /** RedPathVolumePrefixLookup(): the path's volume becomes the current one. */
    method RedPathVolumePrefixLookup(path: seq<char>) returns (result: Result<nat>)
      requires Valid() && NUL !in path
      modifies this`current
      ensures Valid()
      ensures result.Ok? ==> VolumeOf(path, prefixes, result.value) && current == result.value
      ensures result.Err? ==> result.error == ENOENT && current == old(current) && forall v: nat :: !VolumeOf(path, prefixes, v)
    {
      var longest, longestLen, unnamed := -1, 0, -1;
      var v := 0;
      while v < |prefixes|
        invariant 0 <= v <= |prefixes| && current == old(current)
        invariant -1 <= longest < v && -1 <= unnamed < v
        invariant longest == -1 ==> longestLen == 0 && forall w | 0 <= w < v :: !Matches(path, prefixes[w])
        invariant longest != -1 ==> Matches(path, prefixes[longest]) && longestLen == |prefixes[longest]|
        invariant forall w | 0 <= w < v && Matches(path, prefixes[w]) :: |prefixes[w]| <= longestLen
        invariant unnamed == -1 ==> forall w | 0 <= w < v :: prefixes[w] != []
        invariant unnamed != -1 ==> prefixes[unnamed] == []
      {
        if prefixes[v] == [] {
          unnamed := v;
        } else {
          CompareIsMatch(path, prefixes[v]);
          if Compares(path, prefixes[v]) && |prefixes[v]| > longestLen {
            longest, longestLen := v, |prefixes[v]|;
          }
        }
        v := v + 1;
      }
      if longest != -1 {
        current := longest;
        result := Ok(longest);
      } else if unnamed != -1 {
        current := unnamed;
        result := Ok(unnamed);
      } else {
        result := Err(ENOENT);
      }
    }

    /** RedPathVolumeLookup(): the path may name a volume, and go on with nothing
        but separators.  The volume becomes current even if more follows. */
    method RedPathVolumeLookup(path: seq<char>) returns (result: Result<nat>)
      requires Valid() && NUL !in path
      modifies this`current
      ensures Valid()
      ensures forall v: nat | VolumeOf(path, prefixes, v) :: current == v
      ensures (forall v: nat :: !VolumeOf(path, prefixes, v)) ==> current == old(current)
      ensures result.Ok? ==>
                && VolumeOf(path, prefixes, result.value)
                && |prefixes[result.value]| <= |path|
                && Names(path[|prefixes[result.value]|..]) == []
      ensures result.Err? ==> result.error == ENOENT
      ensures result.Err? ==> forall v: nat | VolumeOf(path, prefixes, v) ::
                |prefixes[v]| <= |path| && Names(path[|prefixes[v]|..]) != []
    {
      result := RedPathVolumePrefixLookup(path);
      if result.Ok? {
        var v := current;
        forall w: nat | VolumeOf(path, prefixes, w)
          ensures w == v
        {
          OneVolume(path, prefixes, v, w);
        }
        var extra := path[|prefixes[v]|..];
        var i: nat := 0;
        while i < |extra| && extra[i] == SEPARATOR
          invariant i <= |extra| && SkipSeparators(extra, 0) == SkipSeparators(extra, i)
        {
          i := i + 1;
        }
        if i < |extra| {
          result := Err(ENOENT);
        }
      }
    }
  }
}
