/** The paths that the scanner joins and splits again. */
module ScannerPaths {
  import opened GoStrings
  import Scanner = ObjectStorageScanner

  /** What follows the bucket in a joined path. */
  function InnerPath(prefix: string, name: string): string {
    var p := TrimSuffix(TrimPrefix(prefix, "/"), "/");
    if p == "" then name else p + "/" + name
  }

  /** No trim of `splitPath` reaches into this name. */
  predicate EndsWell(name: string) {
    name == "" || (name[|name| - 1] != '/' && name[|name| - 1] != ' ')
  }

  predicate StartsWell(bucket: string) {
    SlashFree(bucket) && (bucket == "" || bucket[0] != ' ')
  }

  /** Whatever the prefix looks like, `splitPath` recovers the bucket and the rest from the path that `joinPath` makes of them if and
      only if the bucket has no slash and no leading space and the name has no trailing slash or space. */
  lemma SplitInvertsJoin(bucket: string, prefix: string, name: string)
    requires bucket != "" && name != ""
    ensures Scanner.JoinPath(bucket, prefix, name) == bucket + "/" + InnerPath(prefix, name)
    ensures Scanner.SplitPath(Scanner.JoinPath(bucket, prefix, name)) == (bucket, InnerPath(prefix, name))
            <==> StartsWell(bucket) && EndsWell(name)
  {
    hide Scanner.SplitPath, InnerPath, Scanner.JoinPath, SlashFree;
    JoinedPath(bucket, prefix, name);
    SplitBucket(bucket, InnerPath(prefix, name));
  }

  lemma JoinedPath(bucket: string, prefix: string, name: string)
    requires name != ""
    ensures Scanner.JoinPath(bucket, prefix, name) == bucket + "/" + InnerPath(prefix, name)
    ensures InnerPath(prefix, name) != "" && InnerPath(prefix, name)[|InnerPath(prefix, name)| - 1] == name[|name| - 1]
  {
    hide TrimSuffix, TrimPrefix;
    var p := TrimSuffix(TrimPrefix(prefix, "/"), "/");
    assert bucket + "/" + p + "/" + name == bucket + "/" + (p + "/" + name);
  }

  lemma SplitBucket(bucket: string, inner: string)
    requires bucket != "" && inner != ""
    ensures Scanner.SplitPath(bucket + "/" + inner) == (bucket, inner) <==> StartsWell(bucket) && EndsWell(inner)
  {
    hide Split, Join, Trim, SlashFree, TrimPrefix, TrimSuffix;
    var path := bucket + "/" + inner;
    PathEnds(bucket, inner);
    if StartsWell(bucket) && EndsWell(inner) {
      SplitConcat(bucket, inner);
      SplitSlashFree(bucket);
      assert ([bucket] + Split(inner))[1..] == Split(inner);
      JoinSplit(inner);
    }
    if Scanner.SplitPath(path) == (bucket, inner) {
      var trimmed := TrimSuffix(TrimPrefix(Trim(path, Spaces), "/"), "/");
      TwoParts(Split(trimmed), bucket, inner);
      JoinSplit(trimmed);
      assert SlashFree(Split(trimmed)[0]);
    }
  }

  /** What a joined path splits into is never longer than what was joined: it is a given inner path of at least that length only
      if nothing at all was trimmed. */
  lemma SplitsInto(bucket: string, inner: string, target: string)
    requires bucket != "" && inner != "" && |target| >= |inner|
    ensures Scanner.SplitPath(bucket + "/" + inner) == (bucket, target) <==> StartsWell(bucket) && EndsWell(inner) && target == inner
  {
    hide Split, Join, Trim, SlashFree, TrimPrefix, TrimSuffix;
    var path := bucket + "/" + inner;
    SplitBucket(bucket, inner);
    if Scanner.SplitPath(path) == (bucket, target) {
      var trimmed := TrimSuffix(TrimPrefix(Trim(path, Spaces), "/"), "/");
      TwoParts(Split(trimmed), bucket, target);
      JoinSplit(trimmed);
      Trimmed(path);
      assert (bucket + "/" + target)[|bucket| + 1..] == target && path[|bucket| + 1..] == inner;
    }
  }

  lemma Trimmed(path: string)
    ensures var trimmed := TrimSuffix(TrimPrefix(Trim(path, Spaces), "/"), "/");
            |trimmed| <= |path| && (|trimmed| == |path| ==> trimmed == path)
  {
    hide Trim;
    SameLength(path);
  }

  /** Joining a directory's listing prefix and a name gives the name behind that prefix, unless the prefix starts with a slash. */
  lemma InnerOfListing(clean: string, name: string)
    requires name != "" && SlashFree(name) && (clean == "" || HasSuffix(clean, "/"))
    ensures InnerPath(clean, name) == clean + name <==> !HasPrefix(clean, "/")
    ensures |InnerPath(clean, name)| <= |clean + name|
  {
    if clean == "" {
      assert clean + name == name;
    } else if !HasPrefix(clean, "/") {
      var d := clean[..|clean| - 1];
      assert clean == d + "/" && TrimSuffix(clean, "/") == d;
      assert clean + name == d + "/" + name;
    }
  }

  lemma TwoParts(parts: seq<string>, bucket: string, inner: string)
    requires |parts| >= 1 && parts[0] == bucket && Join(parts[1..]) == inner != ""
    ensures Join(parts) == bucket + "/" + inner
  {
  }

  /** Nothing is trimmed off a path exactly if it has none of the ends that are trimmed. */
  lemma PathEnds(bucket: string, inner: string)
    requires bucket != "" && inner != ""
    ensures var path := bucket + "/" + inner;
            TrimSuffix(TrimPrefix(Trim(path, Spaces), "/"), "/") == path <==> bucket[0] != '/' && bucket[0] != ' ' && EndsWell(inner)
    ensures SlashFree(bucket) ==> bucket[0] != '/'
  {
    hide Trim;
    var path := bucket + "/" + inner;
    assert bucket[0] in bucket;
    assert path[0] == bucket[0] && path[|path| - 1] == inner[|inner| - 1];
    TrimIdentity(path, Spaces);
    SameLength(path);
  }

  lemma SameLength(s: string)
    ensures |Trim(s, Spaces)| == |s| ==> Trim(s, Spaces) == s
  {
  }

  lemma NothingJoined()
    ensures Join([]) == ""
  {
  }

  lemma HeadLength(s: string)
    ensures |Split(s)[0]| <= |s|
  {
    hide Split;
    JoinSplit(s);
  }
}
