/**
  Which files LogSanitizer sanitizes.  Given a single file it handles that
  file; given a directory it walks the tree and handles every entry that is not a directory
  whose name does not end in `.gz`, `.clean` or `.zst`, stopping at the
  first file it cannot open.  The output of a file is written next to it,
  under the same name with `.clean` appended.
 */
module Walk {

  /** An entry of the recursive directory walk, in the order it is visited. */
  datatype Entry = Entry(path: string, isDirectory: bool)

  predicate EndsWith(s: string, suffix: string) {
    |suffix| <= |s| && s[|s| - |suffix|..] == suffix
  }

  /** The name of the sanitized copy of `path`. */
  function CleanPath(path: string): (c: string)
    ensures |c| == |path| + 6 && c[..|path|] == path && EndsWith(c, ".clean")
  {
    var c := path + ".clean";
    assert c[|c| - 6..] == ".clean";
    c
  }

  /** Directories, archives and earlier outputs are skipped by the walk. */
  predicate Skipped(e: Entry) {
    e.isDirectory || EndsWith(e.path, ".gz") || EndsWith(e.path, ".clean") || EndsWith(e.path, ".zst")
  }

  /** The paths the walk handles, in order, when every file opens. */
  function Selected(entries: seq<Entry>): seq<string>
    decreases |entries|
  {
    if entries == [] then []
    else
      var rest := Selected(entries[1..]);
      if Skipped(entries[0]) then rest else [entries[0].path] + rest
  }

  /** The selected paths are exactly those of the entries that are not
      skipped. */
  lemma {:induction false} SelectedExact(entries: seq<Entry>)
    ensures forall p :: p in Selected(entries) <==> exists e :: e in entries && !Skipped(e) && e.path == p
    decreases |entries|
  {
    if entries != [] {
      SelectedExact(entries[1..]);
      assert entries == [entries[0]] + entries[1..];
      assert forall e :: e in entries <==> e == entries[0] || e in entries[1..];
    }
  }

  /** A walk never picks up the output of an earlier run. */
  lemma CleanOutputSkipped(path: string, isDirectory: bool)
    ensures Skipped(Entry(CleanPath(path), isDirectory))
  {
  }

  lemma PrefixOfConcat(a: seq<string>, b: seq<string>, c: seq<string>)
    requires a + b == c
    ensures a <= c
  {
    assert c[..|a|] == a;
  }

  /** The walk of a directory: `handled` is every file it handled, in order;
      it stops with status 1 at the first file it cannot open. */
  method WalkTree(entries: seq<Entry>, readable: set<string>) returns (status: int, handled: seq<string>)
    ensures handled <= Selected(entries)
    ensures status == 0 ==> handled == Selected(entries) && forall p :: p in handled ==> p in readable
    ensures status == 0 || status == 1
    ensures status == 1 ==> handled != [] && handled[|handled| - 1] !in readable
    ensures status == 1 ==> forall k :: 0 <= k < |handled| - 1 ==> handled[k] in readable
  {
    handled := [];
    var i := 0;
    while i < |entries|
      invariant i <= |entries|
      invariant handled + Selected(entries[i..]) == Selected(entries)
      invariant forall p :: p in handled ==> p in readable
    {
      var e := entries[i];
      assert entries[i..][0] == e && entries[i..][1..] == entries[i + 1..];
      if !Skipped(e) {
        var before := handled;
        handled := handled + [e.path];
        assert handled + Selected(entries[i + 1..]) == Selected(entries) by {
          assert before + ([e.path] + Selected(entries[i + 1..])) == Selected(entries);
        }
        if e.path !in readable {
          PrefixOfConcat(handled, Selected(entries[i + 1..]), Selected(entries));
          assert forall k :: 0 <= k < |handled| - 1 ==> handled[k] == before[k];
          return 1, handled;
        }
      }
      i := i + 1;
    }
    assert handled + [] == handled;
    return 0, handled;
  }

  /** The whole run: a missing target fails, a single file is handled
      whatever its name, a directory is walked. */
  method Run(target: Entry, targetExists: bool, entries: seq<Entry>, readable: set<string>) returns (status: int, handled: seq<string>)
    ensures !targetExists ==> status == 1 && handled == []
    ensures targetExists && !target.isDirectory ==>
      handled == [target.path] && (status == 0 <==> target.path in readable)
    ensures status == 0 || status == 1
    ensures targetExists && target.isDirectory ==> handled <= Selected(entries)
    ensures targetExists && target.isDirectory && status == 0 ==> handled == Selected(entries)
    ensures targetExists && target.isDirectory && status == 1 ==> handled != [] && handled[|handled| - 1] !in readable
    ensures targetExists && target.isDirectory && status == 1 ==>
      forall k :: 0 <= k < |handled| - 1 ==> handled[k] in readable
  {
    if !targetExists {
      return 1, [];
    }
    if !target.isDirectory {
      status := if target.path in readable then 0 else 1;
      return status, [target.path];
    }
    status, handled := WalkTree(entries, readable);
  }
}
