/** The filter the directory walk of `ConcurrentGrep` applies to each visited
    entry (utils/search.go:36-55), given the components of the entry's path
    relative to the search root and whether the entry is a directory. */
module WalkFilter {

  /** `strings.HasPrefix(c, ".")`: a hidden path component. */
  predicate IsHidden(c: string) {
    |c| > 0 && c[0] == '.'
  }

  /** The entry is sent to the workers: it is not a directory, and no
      component of its relative path is hidden. */
  predicate Queued(components: seq<string>, isDir: bool) {
    !isDir && forall k :: 0 <= k < |components| ==> !IsHidden(components[k])
  }

  /** The walk callback's decision for one entry: a hidden component rejects a
      file at once; for a directory the check goes on to the next component,
      and a directory is never queued. */
  method ShouldQueue(components: seq<string>, isDir: bool) returns (queued: bool)
    ensures queued == Queued(components, isDir)
  {
    var k := 0;
    while k < |components|
      invariant 0 <= k <= |components|
      invariant !isDir ==> forall m :: 0 <= m < k ==> !IsHidden(components[m])
    {
      if IsHidden(components[k]) {
        if isDir {
          k := k + 1;
          continue;
        }
        return false;
      }
      k := k + 1;
    }
    queued := !isDir;
  }

  /** Although a hidden directory is still walked into, no file beneath it is
      queued: every path under it carries its hidden component. */
  lemma HiddenSubtreeNeverQueued(dir: seq<string>, rest: seq<string>, isDir: bool)
    requires exists k :: 0 <= k < |dir| && IsHidden(dir[k])
    ensures !Queued(dir + rest, isDir)
  {
    var k :| 0 <= k < |dir| && IsHidden(dir[k]);
    assert (dir + rest)[k] == dir[k];
  }

  /** A file whose path has no hidden component is queued wherever it sits
      below visible directories. */
  lemma VisibleFileQueued(dir: seq<string>, name: string)
    requires forall k :: 0 <= k < |dir| ==> !IsHidden(dir[k])
    requires !IsHidden(name)
    ensures Queued(dir + [name], false)
  {
    forall k | 0 <= k < |dir + [name]|
      ensures !IsHidden((dir + [name])[k])
    {
      if k < |dir| {
        assert (dir + [name])[k] == dir[k];
      }
    }
  }

  /** Of `.git/config`, `a/.hidden/file.txt` and `a/visible.txt`, only the
      last is queued; the root itself, whose relative path is `.`, never is. */
  lemma HiddenPathExamples()
    ensures !Queued([".git", "config"], false)
    ensures !Queued(["a", ".hidden", "file.txt"], false)
    ensures Queued(["a", "visible.txt"], false)
    ensures !Queued(["."], false) && !Queued(["."], true)
  {
    assert IsHidden([".git", "config"][0]);
    assert IsHidden(["a", ".hidden", "file.txt"][1]);
    assert IsHidden(["."][0]);
  }
}
