/**
 * The directory check run before a project is created in an existing
 * directory (`isSafeToCreateProject`): only `.git` and `.gitignore` may
 * already be there; every other entry is reported as a conflict.
 */
module CreateApp {
  import opened Text

  /** Entries that may already exist in the target directory. */
  const ValidFiles: seq<string> := [".git", ".gitignore"]

  /** The listing with every allowed entry removed, in listing order: the names reported to the user. */
  function ConflictingFiles(listing: seq<string>): (r: seq<string>)
    ensures forall f :: f in r <==> f in listing && f !in ValidFiles
    ensures |r| <= |listing|
    decreases |listing|
  {
    if listing == [] then []
    else
      assert listing == [listing[0]] + listing[1..];
      (if listing[0] in ValidFiles then [] else [listing[0]]) + ConflictingFiles(listing[1..])
  }

  /** True exactly when the directory holds nothing but allowed entries. */
  function IsSafeToCreateProject(listing: seq<string>): (safe: bool)
    ensures safe <==> forall f :: f in listing ==> f in ValidFiles
    ensures safe <==> ConflictingFiles(listing) == []
  {
    var conflicts := ConflictingFiles(listing);
    assert conflicts != [] ==> conflicts[0] in conflicts;
    |conflicts| == 0
  }

  /** The filter works entry by entry: the conflicts of a split listing are the two parts' conflicts in order. */
  lemma {:induction false} ConflictingFilesAppend(a: seq<string>, b: seq<string>)
    ensures ConflictingFiles(a + b) == ConflictingFiles(a) + ConflictingFiles(b)
    decreases |a|
  {
    if a != [] {
      assert (a + b)[1..] == a[1..] + b;
      ConflictingFilesAppend(a[1..], b);
    } else {
      assert a + b == b;
    }
  }

  /** The conflicts keep the order of the listing. */
  lemma {:induction false} ConflictingFilesInOrder(listing: seq<string>)
    ensures IsSubsequence(ConflictingFiles(listing), listing)
    decreases |listing|
  {
    if listing != [] {
      var rest := listing[1..];
      assert listing == [listing[0]] + rest;
      ConflictingFilesInOrder(rest);
      if listing[0] in ValidFiles {
        assert ConflictingFiles(listing) == ConflictingFiles(rest);
        SubsequenceDropFront(ConflictingFiles(rest), [listing[0]], rest);
      } else {
        assert ConflictingFiles(listing) == [listing[0]] + ConflictingFiles(rest);
        SubsequenceKeepFront([listing[0]], ConflictingFiles(rest), rest);
      }
    }
  }

  /** Number of allowed entries in the listing. */
  function CountValid(listing: seq<string>): nat
    decreases |listing|
  {
    if listing == [] then 0
    else (if listing[0] in ValidFiles then 1 else 0) + CountValid(listing[1..])
  }

  /** Every entry is either allowed or reported, never both and never dropped. */
  lemma {:induction false} ConflictingFilesCount(listing: seq<string>)
    ensures |ConflictingFiles(listing)| + CountValid(listing) == |listing|
    decreases |listing|
  {
    if listing != [] {
      ConflictingFilesCount(listing[1..]);
    }
  }
}
