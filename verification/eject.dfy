/**
 * The eject step of `init`: each file of the `config` and `scripts`
 * folders is either left out (it carries the remove-file marker) or
 * written to the new project with every eject-only block cut out by one
 * global, non-greedy regular-expression replacement.
 */
module Eject {
  import opened Text

  const RemoveFileMarker := "// @remove-file-on-eject"
  const BlockBegin := "// @remove-on-eject-begin"
  const BlockEnd := "// @remove-on-eject-end"

  /** A file that mentions the remove-file marker anywhere is not ejected. */
  function ShouldSkip(content: string): (skip: bool)
    ensures skip <==> Contains(content, RemoveFileMarker)
  {
    Includes(content, RemoveFileMarker)
  }

  /**
   * `content.replace(/\/\/ @remove-on-eject-begin([\s\S]*?)\/\/ @remove-on-eject-end/gm, '')`:
   * the text a file is ejected with.
   */
  function StripEjectBlocks(content: string): (r: string)
  {
    StripBlocks(content, BlockBegin, BlockEnd)
  }

  /**
   * A global, non-greedy `begin([\s\S]*?)end` replacement by the empty
   * string, for literal markers: the leftmost `begin` that has an `end`
   * after it, the first such `end`, both markers and everything between
   * them are removed, and the search resumes after the removed text (it
   * never looks back into what precedes the cut).
   */
  function StripBlocks(s: string, begin: string, end: string): (r: string)
    requires begin != []
    decreases |s|
  {
    var i := IndexOf(s, begin, 0);
    if i < 0 then s
    else
      var j := IndexOf(s, end, i + |begin|);
      if j < 0 then s
      else s[..i] + StripBlocks(s[j + |end|..], begin, end)
  }

  /** Some `begin` is followed, after its own last character, by an `end`: the regular expression matches. */
  ghost predicate HasBlock(s: string, begin: string, end: string)
  {
    exists i: nat, j: nat :: OccursAt(s, begin, i) && i + |begin| <= j && OccursAt(s, end, j)
  }

  /** The strip changes the text exactly when there is a complete block in it. */
  lemma {:induction false} StripUnchangedIff(s: string, begin: string, end: string)
    requires begin != []
    ensures StripBlocks(s, begin, end) == s <==> !HasBlock(s, begin, end)
  {
    var i := IndexOf(s, begin, 0);
    if HasBlock(s, begin, end) {
      var i0: nat, j0: nat :| OccursAt(s, begin, i0) && i0 + |begin| <= j0 && OccursAt(s, end, j0);
      var j := IndexOf(s, end, i + |begin|);
      assert 0 <= i <= i0;
      assert 0 <= j <= j0;
      StripStep(s, begin, end, i, j);
      StripNoLonger(s[j + |end|..], begin, end);
    } else if i < 0 {
      StripStop(s, begin, end);
    } else {
      assert IndexOf(s, end, i + |begin|) < 0;
      StripStop(s, begin, end);
    }
  }

  /** Text without a `begin` comes back unchanged. */
  lemma {:induction false} StripWithoutBegin(s: string, begin: string, end: string)
    requires begin != [] && !Contains(s, begin)
    ensures StripBlocks(s, begin, end) == s
  {
    StripUnchangedIff(s, begin, end);
  }

  /** When the first `begin` has no `end` after it, the text comes back unchanged. */
  lemma {:induction false} StripUnmatchedBegin(s: string, begin: string, end: string, i: nat)
    requires begin != [] && OccursAt(s, begin, i)
    requires forall k: nat :: k < i ==> !OccursAt(s, begin, k)
    requires forall j: nat :: i + |begin| <= j ==> !OccursAt(s, end, j)
    ensures StripBlocks(s, begin, end) == s
  {
    IndexOfIsFirst(s, begin, 0, i);
    StripStop(s, begin, end);
  }

  /**
   * The first removed block starts at the first `begin` and ends with the
   * first `end` after it; scanning then resumes on the text after it.
   */
  lemma {:induction false} StripFirstBlock(s: string, begin: string, end: string, i: nat, j: nat)
    requires begin != [] && OccursAt(s, begin, i)
    requires forall k: nat :: k < i ==> !OccursAt(s, begin, k)
    requires i + |begin| <= j && OccursAt(s, end, j)
    requires forall k: nat :: i + |begin| <= k < j ==> !OccursAt(s, end, k)
    ensures StripBlocks(s, begin, end) == s[..i] + StripBlocks(s[j + |end|..], begin, end)
  {
    IndexOfIsFirst(s, begin, 0, i);
    IndexOfIsFirst(s, end, i + |begin|, j);
    StripStep(s, begin, end, i, j);
  }

  /** One step of the scan, as the definition takes it. */
  lemma {:induction false} StripStep(s: string, begin: string, end: string, i: nat, j: nat)
    requires begin != []
    requires IndexOf(s, begin, 0) == i && IndexOf(s, end, i + |begin|) == j
    ensures StripBlocks(s, begin, end) == s[..i] + StripBlocks(s[j + |end|..], begin, end)
  {
  }

  /** The strip never makes a text longer. */
  lemma {:induction false} StripNoLonger(s: string, begin: string, end: string)
    requires begin != []
    ensures |StripBlocks(s, begin, end)| <= |s|
    decreases |s|
  {
    var i := IndexOf(s, begin, 0);
    var j := if i < 0 then -1 else IndexOf(s, end, i + |begin|);
    if i < 0 || j < 0 {
      StripStop(s, begin, end);
    } else {
      StripStep(s, begin, end, i, j);
      StripNoLonger(s[j + |end|..], begin, end);
    }
  }

  /** Without a `begin` followed by an `end` the scan stops and keeps the text. */
  lemma {:induction false} StripStop(s: string, begin: string, end: string)
    requires begin != []
    requires IndexOf(s, begin, 0) < 0 || IndexOf(s, end, IndexOf(s, begin, 0) + |begin|) < 0
    ensures StripBlocks(s, begin, end) == s
  {
  }

  /** `StripStep` with the kept prefix, the resume position and the rescanned tail named. */
  lemma {:induction false} StripStepAt(s: string, begin: string, end: string, i: nat, j: nat, e: nat, pre: string, tail: string)
    requires begin != []
    requires IndexOf(s, begin, 0) == i && IndexOf(s, end, i + |begin|) == j
    requires e == j + |end| <= |s|
    requires s[..i] == pre && s[e..] == tail
    ensures StripBlocks(s, begin, end) == pre + StripBlocks(tail, begin, end)
  {
    StripStep(s, begin, end, i, j);
  }

  /** Text in front of the first `begin` is kept as it is. */
  lemma {:induction false} StripKeepsPrefix(a: string, b: string, begin: string, end: string)
    requires begin != []
    requires forall k: nat :: k < |a| ==> !OccursAt(a + b, begin, k)
    ensures StripBlocks(a + b, begin, end) == a + StripBlocks(b, begin, end)
  {
    var s := a + b;
    IndexOfSkip(s, begin, 0, |a|);
    IndexOfShift(a, b, begin, 0);
    var i := IndexOf(b, begin, 0);
    if i < 0 {
      StripStop(s, begin, end);
      StripStop(b, begin, end);
    } else {
      IndexOfShift(a, b, end, i + |begin|);
      var j := IndexOf(b, end, i + |begin|);
      if j < 0 {
        StripStop(s, begin, end);
        StripStop(b, begin, end);
      } else {
        StripShiftedStep(a, b, begin, end, i, j);
      }
    }
  }

  /** The step of the scan on `b` is the step on `a + b`, moved by `|a|`. */
  lemma {:induction false} StripShiftedStep(a: string, b: string, begin: string, end: string, i: nat, j: nat)
    requires begin != []
    requires IndexOf(b, begin, 0) == i && IndexOf(b, end, i + |begin|) == j
    requires IndexOf(a + b, begin, 0) == |a| + i
    requires IndexOf(a + b, end, |a| + i + |begin|) == |a| + j
    ensures StripBlocks(a + b, begin, end) == a + StripBlocks(b, begin, end)
  {
    StripShiftedFirst(a, b, begin, end, i, j);
    StripStep(b, begin, end, i, j);
    Reassociate(StripBlocks(a + b, begin, end), StripBlocks(b, begin, end), a, b[..i], StripBlocks(b[j + |end|..], begin, end));
  }

  /** The first block of `a + b` is the first block of `b`, moved by `|a|`. */
  lemma {:induction false} StripShiftedFirst(a: string, b: string, begin: string, end: string, i: nat, j: nat)
    requires begin != []
    requires IndexOf(b, begin, 0) == i && IndexOf(b, end, i + |begin|) == j
    requires IndexOf(a + b, begin, 0) == |a| + i
    requires IndexOf(a + b, end, |a| + i + |begin|) == |a| + j
    ensures StripBlocks(a + b, begin, end) == (a + b[..i]) + StripBlocks(b[j + |end|..], begin, end)
  {
    SliceAppend(a, b, i);
    SliceAppend(a, b, j + |end|);
    StripStepAt(a + b, begin, end, |a| + i, |a| + j, |a| + (j + |end|), a + b[..i], b[j + |end|..]);
  }

  /** Equalities of concatenations, regrouped. */
  lemma {:induction false} Reassociate(whole: string, part: string, x: string, y: string, z: string)
    requires whole == (x + y) + z && part == y + z
    ensures whole == x + part
  {
  }

  /** Whole lines without a `begin` in front of the rest of the text are kept. */
  lemma {:induction false} StripKeepsLines(a: string, b: string, begin: string, end: string)
    requires begin != [] && '\n' !in begin
    requires !Contains(a, begin)
    requires a == [] || a[|a| - 1] == '\n'
    ensures StripBlocks(a + b, begin, end) == a + StripBlocks(b, begin, end)
  {
    forall k: nat | k < |a| ensures !OccursAt(a + b, begin, k) {
      if k + |begin| <= |a| {
        OccursAtPrefix(a, b, begin, k);
      } else {
        NotOccursAt(a + b, begin, k, |a| - 1 - k);
      }
    }
    StripKeepsPrefix(a, b, begin, end);
  }

  /** A text that opens with a block loses that block and is stripped from its end on. */
  lemma {:induction false} StripLeadingBlock(body: string, b: string, begin: string, end: string)
    requires begin != []
    requires forall k: nat :: k < |body| ==> !OccursAt(body + end, end, k)
    ensures StripBlocks(begin + body + end + b, begin, end) == StripBlocks(b, begin, end)
  {
    var pre := begin + body;
    var t := pre + (end + b);
    var j := |pre|;
    assert begin + body + end + b == t;
    assert OccursAt(t, begin, 0) by {
      OccursAtPrefix(begin, body + (end + b), begin, 0);
      assert t == begin + (body + (end + b));
    }
    assert OccursAt(t, end, j) by {
      OccursAtShift(pre, end + b, end, 0);
      OccursAtPrefix(end, b, end, 0);
    }
    forall k: nat | |begin| <= k < j ensures !OccursAt(t, end, k) {
      assert t == begin + ((body + end) + b);
      OccursAtShift(begin, (body + end) + b, end, k - |begin|);
      OccursAtPrefix(body + end, b, end, k - |begin|);
    }
    assert t[j + |end|..] == b;
    StripFirstBlock(t, begin, end, 0, j);
    assert t[..0] == [];
  }

  /**
   * A block whose `begin` starts a line disappears with both markers; the
   * lines before it and everything after its `end` stay. `body` holds no
   * `end`, so the block ends at the one given.
   */
  lemma {:induction false} StripRemovesBlock(a: string, body: string, b: string, begin: string, end: string)
    requires begin != [] && '\n' !in begin
    requires !Contains(a, begin)
    requires a == [] || a[|a| - 1] == '\n'
    requires forall k: nat :: k < |body| ==> !OccursAt(body + end, end, k)
    ensures StripBlocks(a + begin + body + end + b, begin, end) == a + StripBlocks(b, begin, end)
  {
    var t := begin + body + end + b;
    assert a + begin + body + end + b == a + t;
    StripKeepsLines(a, t, begin, end);
    StripLeadingBlock(body, b, begin, end);
  }

  /** A block on lines of its own leaves the line break after its `end` in place. */
  lemma {:induction false} StripBlockOnOwnLines(a: string, body: string, c: string, begin: string, end: string)
    requires begin != [] && '\n' !in begin
    requires !Contains(a, begin)
    requires a == [] || a[|a| - 1] == '\n'
    requires forall k: nat :: k < |body| ==> !OccursAt(body + end, end, k)
    ensures StripBlocks(a + begin + body + end + "\n" + c, begin, end) == a + "\n" + StripBlocks(c, begin, end)
  {
    var t := "\n" + c;
    assert a + begin + body + end + "\n" + c == a + begin + body + end + t;
    assert StripBlocks(a + begin + body + end + t, begin, end) == a + StripBlocks(t, begin, end) by {
      StripRemovesBlock(a, body, t, begin, end);
    }
    assert StripBlocks(t, begin, end) == "\n" + StripBlocks(c, begin, end) by {
      assert !Contains("\n", begin) by {
        forall k: nat ensures !OccursAt("\n", begin, k) {
          if k + |begin| <= 1 {
            assert begin[0] in begin;
            NotOccursAt("\n", begin, k, 0);
          }
        }
      }
      StripKeepsLines("\n", c, begin, end);
    }
    Regroup(a, "\n", StripBlocks(c, begin, end));
  }

  /** What the strip keeps is a subsequence of the input: text outside the blocks, in its original order. */
  lemma {:induction false} StripKeepsOrder(s: string, begin: string, end: string)
    requires begin != []
    ensures IsSubsequence(StripBlocks(s, begin, end), s)
    decreases |s|
  {
    var i := IndexOf(s, begin, 0);
    var j := if i < 0 then -1 else IndexOf(s, end, i + |begin|);
    if i < 0 || j < 0 {
      StripStop(s, begin, end);
      SubsequenceRefl(s);
    } else {
      var after := s[j + |end|..];
      var kept := StripBlocks(after, begin, end);
      assert IsSubsequence(kept, s[i..]) by {
        StripKeepsOrder(after, begin, end);
        assert s[i..] == s[i..j + |end|] + after;
        SubsequenceDropFront(kept, s[i..j + |end|], after);
      }
      assert IsSubsequence(s[..i] + kept, s) by {
        SubsequenceKeepFront(s[..i], kept, s[i..]);
        assert s[..i] + s[i..] == s;
      }
      StripStep(s, begin, end, i, j);
    }
  }

  /** A second strip changes nothing when the first one left no `begin` behind. */
  lemma {:induction false} StripIdempotentWhenNoBeginLeft(s: string, begin: string, end: string)
    requires begin != [] && !Contains(StripBlocks(s, begin, end), begin)
    ensures StripBlocks(StripBlocks(s, begin, end), begin, end) == StripBlocks(s, begin, end)
  {
    StripWithoutBegin(StripBlocks(s, begin, end), begin, end);
  }

  /** A second strip changes nothing exactly when the first one left no complete block behind. */
  lemma {:induction false} StripIdempotentIff(s: string, begin: string, end: string)
    requires begin != []
    ensures StripBlocks(StripBlocks(s, begin, end), begin, end) == StripBlocks(s, begin, end)
      <==> !HasBlock(StripBlocks(s, begin, end), begin, end)
  {
    StripUnchangedIff(StripBlocks(s, begin, end), begin, end);
  }

  /** A bare leading block goes, and a tail without `begin` stays. */
  lemma {:induction false} StripBareBlockThen(t: string, begin: string, end: string)
    requires begin != [] && !Contains(t, begin)
    ensures StripBlocks(begin + end + t, begin, end) == t
  {
    assert begin + [] + end + t == begin + end + t;
    StripLeadingBlock([], t, begin, end);
    StripWithoutBegin(t, begin, end);
  }

  /**
   * Cutting a block out of `x + begin + end + y + end`, where `x + y` is
   * `begin`, joins `x` and `y` into a fresh `begin`: one strip leaves a
   * complete block behind.
   */
  lemma {:induction false} StripSplice(x: string, y: string, begin: string, end: string)
    requires begin != [] && x + y == begin
    requires forall k: nat :: k < |x| ==> !OccursAt(x + (begin + end + (y + end)), begin, k)
    requires !Contains(y + end, begin)
    ensures StripBlocks(x + (begin + end + (y + end)), begin, end) == begin + end
  {
    var tail := y + end;
    var rest := begin + end + tail;
    StripKeepsPrefix(x, rest, begin, end);
    StripBareBlockThen(tail, begin, end);
    assert StripBlocks(x + rest, begin, end) == x + tail;
    Regroup(x, y, end);
  }

  /** A text that is one bare block strips to nothing. */
  lemma {:induction false} StripBareBlock(begin: string, end: string)
    requires begin != []
    ensures StripBlocks(begin + end, begin, end) == []
  {
    assert begin + [] + end + [] == begin + end;
    StripLeadingBlock([], [], begin, end);
    StripStop([], begin, end);
  }

  /**
   * One strip is not always enough: the text before the block is the
   * first 14 characters of the begin marker, the text after it the rest
   * of that marker and an end marker.
   */
  lemma StripNotIdempotent()
    ensures var s := BlockBegin[..14] + (BlockBegin + BlockEnd + (BlockBegin[14..] + BlockEnd));
      StripEjectBlocks(s) == BlockBegin + BlockEnd &&
      StripEjectBlocks(StripEjectBlocks(s)) == [] != StripEjectBlocks(s)
  {
    var x := BlockBegin[..14];
    var y := BlockBegin[14..];
    assert x + y == BlockBegin;
    NoBeginInHead(x, BlockBegin + BlockEnd + (y + BlockEnd));
    NoBeginInTail(y + BlockEnd);
    StripSplice(x, y, BlockBegin, BlockEnd);
    StripBareBlock(BlockBegin, BlockEnd);
  }

  /** No begin marker starts inside its own first 14 characters when a `/` follows them. */
  lemma NoBeginInHead(x: string, rest: string)
    requires x == BlockBegin[..14] && rest != [] && rest[0] == '/'
    ensures forall k: nat :: k < |x| ==> !OccursAt(x + rest, BlockBegin, k)
  {
    forall k: nat | k < |x| ensures !OccursAt(x + rest, BlockBegin, k) {
      if k == 0 {
        NotOccursAt(x + rest, BlockBegin, 0, 14);
      } else if k == 1 {
        NotOccursAt(x + rest, BlockBegin, 1, 1);
      } else {
        NotOccursAt(x + rest, BlockBegin, k, 0);
      }
    }
  }

  /** The rest of the begin marker followed by an end marker holds no begin marker. */
  lemma NoBeginInTail(t: string)
    requires t == BlockBegin[14..] + BlockEnd
    ensures !Contains(t, BlockBegin)
  {
    forall k: nat ensures !OccursAt(t, BlockBegin, k) {
      if k + |BlockBegin| <= |t| {
        NotOccursAt(t, BlockBegin, k, 0);
      }
    }
  }

  /** A file of the `config` or `scripts` folder: its path below the package root and its text. */
  datatype SourceFile = SourceFile(path: string, content: string)

  /** Paths of the files that are written to the new project. */
  ghost function WrittenPaths(files: seq<SourceFile>): set<string>
    decreases |files|
  {
    if files == [] then {}
    else
      var last := files[|files| - 1];
      WrittenPaths(files[..|files| - 1]) + (if ShouldSkip(last.content) then {} else {last.path})
  }

  /** A path is written exactly when some file without the remove-file marker has it. */
  lemma {:induction false} WrittenPathsMembers(files: seq<SourceFile>, p: string)
    ensures p in WrittenPaths(files) <==> exists f :: f in files && !ShouldSkip(f.content) && f.path == p
    decreases |files|
  {
    if files != [] {
      var init := files[..|files| - 1];
      var last := files[|files| - 1];
      WrittenPathsMembers(init, p);
      assert files == init + [last];
      if exists f :: f in files && !ShouldSkip(f.content) && f.path == p {
        var f :| f in files && !ShouldSkip(f.content) && f.path == p;
        if f != last {
          assert f in init;
        }
      }
    }
  }

  /**
   * The destination tree after the `files.forEach` of `init` has handled
   * `files` in order: an unmarked file is written stripped of its blocks,
   * a marked one is passed over.
   */
  ghost function Ejected(files: seq<SourceFile>, dest: map<string, string>): map<string, string>
    decreases |files|
  {
    if files == [] then dest
    else
      var last := files[|files| - 1];
      var before := Ejected(files[..|files| - 1], dest);
      if ShouldSkip(last.content) then before else before[last.path := StripEjectBlocks(last.content)]
  }

  /** The written tree holds the paths it had and the paths of the unmarked files. */
  lemma {:induction false} EjectedKeys(files: seq<SourceFile>, dest: map<string, string>)
    ensures Ejected(files, dest).Keys == dest.Keys + WrittenPaths(files)
    decreases |files|
  {
    if files != [] {
      EjectedKeys(files[..|files| - 1], dest);
    }
  }

  /** A path no unmarked file has keeps the text it had. */
  lemma {:induction false} EjectedUntouched(files: seq<SourceFile>, dest: map<string, string>, p: string)
    requires p in dest && p !in WrittenPaths(files)
    ensures p in Ejected(files, dest) && Ejected(files, dest)[p] == dest[p]
    decreases |files|
  {
    if files != [] {
      EjectedUntouched(files[..|files| - 1], dest, p);
    }
  }

  /** With distinct paths, every unmarked file ends up written, stripped of its blocks. */
  lemma {:induction false} EjectedWritten(files: seq<SourceFile>, dest: map<string, string>, i: nat)
    requires forall i, j :: 0 <= i < j < |files| ==> files[i].path != files[j].path
    requires i < |files| && !ShouldSkip(files[i].content)
    ensures files[i].path in Ejected(files, dest)
    ensures Ejected(files, dest)[files[i].path] == StripEjectBlocks(files[i].content)
    decreases |files|
  {
    var n := |files| - 1;
    if i < n {
      EjectedWritten(files[..n], dest, i);
      assert files[i].path != files[n].path;
    }
  }

  /**
   * The `files.forEach` of `init` applied to the destination tree `dest`
   * (path to text): every unmarked file is written stripped of its
   * blocks, a marked file is never written, other paths are untouched.
   */
  method EjectFiles(files: seq<SourceFile>, dest: map<string, string>) returns (out: map<string, string>)
    requires forall i, j :: 0 <= i < j < |files| ==> files[i].path != files[j].path
    ensures out == Ejected(files, dest)
    ensures out.Keys == dest.Keys + WrittenPaths(files)
    ensures forall i :: 0 <= i < |files| && !ShouldSkip(files[i].content) ==>
      files[i].path in out && out[files[i].path] == StripEjectBlocks(files[i].content)
    ensures forall p :: p in dest && p !in WrittenPaths(files) ==> p in out && out[p] == dest[p]
  {
    out := dest;
    for i := 0 to |files|
      invariant out == Ejected(files[..i], dest)
    {
      assert files[..i + 1][..i] == files[..i];
      var f := files[i];
      if !ShouldSkip(f.content) {
        out := out[f.path := StripEjectBlocks(f.content)];
      }
    }
    assert files[..|files|] == files;
    EjectedKeys(files, dest);
    forall i | 0 <= i < |files| && !ShouldSkip(files[i].content)
      ensures files[i].path in out && out[files[i].path] == StripEjectBlocks(files[i].content)
    {
      EjectedWritten(files, dest, i);
    }
    forall p | p in dest && p !in WrittenPaths(files)
      ensures p in out && out[p] == dest[p]
    {
      EjectedUntouched(files, dest, p);
    }
  }
}
