/**
  `white::LogFile`: appending to the current log file and rotating it.  Writing to
  a file always writes everything; what the library has not flushed yet counts as
  written.
 */
module LogFiles {

  function Concat(blocks: seq<string>): string {
    if blocks == [] then "" else blocks[0] + Concat(blocks[1..])
  }

  lemma {:induction false} ConcatAppend(a: seq<string>, b: seq<string>)
    ensures Concat(a + b) == Concat(a) + Concat(b)
    decreases |a|
  {
    if a == [] {
      assert a + b == b;
    } else {
      assert (a + b)[1..] == a[1..] + b;
      ConcatAppend(a[1..], b);
    }
  }

  function Flatten<T>(s: seq<seq<T>>): seq<T> {
    if s == [] then [] else s[0] + Flatten(s[1..])
  }

  lemma {:induction false} FlattenAppend<T>(a: seq<seq<T>>, b: seq<seq<T>>)
    ensures Flatten(a + b) == Flatten(a) + Flatten(b)
    decreases |a|
  {
    if a == [] {
      assert a + b == b;
    } else {
      assert (a + b)[1..] == a[1..] + b;
      FlattenAppend(a[1..], b);
    }
  }

  lemma FlattenOne<T>(s: seq<T>)
    ensures Flatten([s]) == s
  {
    assert [s][1..] == [];
  }

  /** Rotated files, by suffix. */
  type Directory = map<nat, string>

  /** The files with suffixes from `lo` to before `hi`, one behind the other. */
  function Joined(dir: Directory, lo: nat, hi: nat): string
    requires forall n :: lo <= n < hi ==> n in dir
    decreases hi - lo
  {
    if lo >= hi then "" else dir[lo] + Joined(dir, lo + 1, hi)
  }

  ghost predicate HoldsAt(dir: Directory, lo: nat, files: seq<seq<string>>, head: string, i: nat)
    requires i < |files|
  {
    lo + i in dir && dir[lo + i] == (if i == 0 then head else "") + Concat(files[i])
  }

  /** `dir` holds in `lo`, `lo + 1`, ... the blocks of `files`, the first one behind `head`. */
  ghost predicate Holds(dir: Directory, lo: nat, files: seq<seq<string>>, head: string) {
    forall i :: 0 <= i < |files| ==> HoldsAt(dir, lo, files, head, i)
  }

  lemma HoldsOneMore(dir: Directory, lo: nat, files: seq<seq<string>>, head: string, blocks: seq<string>)
    requires Holds(dir, lo, files, head)
    ensures Holds(dir[lo + |files| := (if files == [] then head else "") + Concat(blocks)], lo, files + [blocks], head)
  {
    var content := (if files == [] then head else "") + Concat(blocks);
    var dir', files' := dir[lo + |files| := content], files + [blocks];
    forall i | 0 <= i < |files'| ensures HoldsAt(dir', lo, files', head, i) {
      assert i < |files| ==> HoldsAt(dir, lo, files, head, i);
    }
  }

  /** Besides the suffixes from `first` to before `next`, the directory is as it was; `first` was the first gap. */
  ghost predicate Grown(before: Directory, dir: Directory, first: nat, next: nat) {
    && first <= next
    && (forall n: nat :: n < first ==> n in before) && first !in before
    && (forall n: nat :: n in dir <==> n in before || first <= n < next)
    && (forall n: nat :: n in before && !(first <= n < next) ==> dir[n] == before[n])
  }

  lemma GrownOneMore(before: Directory, dir: Directory, first: nat, next: nat, content: string)
    requires Grown(before, dir, first, next)
    ensures Grown(before, dir[next := content], first, next + 1)
  {
  }

  /** The files behind the first one, on their own. */
  lemma HoldsRest(dir: Directory, lo: nat, files: seq<seq<string>>, head: string)
    requires Holds(dir, lo, files, head) && files != []
    ensures lo in dir && dir[lo] == head + Concat(files[0])
    ensures Holds(dir, lo + 1, files[1..], "")
  {
    var lo', rest := lo + 1, files[1..];
    assert HoldsAt(dir, lo, files, head, 0);
    forall i | 0 <= i < |rest| ensures HoldsAt(dir, lo', rest, "", i) {
      assert HoldsAt(dir, lo, files, head, i + 1);
    }
  }

  lemma JoinedOneMore(dir: Directory, lo: nat, hi: nat, head: string, first: seq<string>, rest: seq<string>)
    requires lo < hi && lo in dir && dir[lo] == head + Concat(first)
    requires (forall n :: lo + 1 <= n < hi ==> n in dir) && Joined(dir, lo + 1, hi) == Concat(rest)
    ensures forall n :: lo <= n < hi ==> n in dir
    ensures Joined(dir, lo, hi) == head + Concat(first + rest)
  {
    ConcatAppend(first, rest);
    assert (head + Concat(first)) + Concat(rest) == head + (Concat(first) + Concat(rest));
  }

  lemma {:induction false} JoinedIsConcat(dir: Directory, lo: nat, files: seq<seq<string>>, head: string)
    requires Holds(dir, lo, files, head)
    ensures forall n :: lo <= n < lo + |files| ==> n in dir
    ensures Joined(dir, lo, lo + |files|) == if files == [] then "" else head + Concat(Flatten(files))
    decreases |files|
  {
    if files != [] {
      var rest := files[1..];
      HoldsRest(dir, lo, files, head);
      JoinedIsConcat(dir, lo + 1, rest, "");
      assert "" + Concat(Flatten(rest)) == Concat(Flatten(rest));
      JoinedOneMore(dir, lo, lo + |files|, head, files[0], Flatten(rest));
    }
  }

  class LogFile {
    const flushEveryN: nat
    const limit: nat
    var count: nat
    var fileSplitCount: nat
    var curBytes: nat

    /** The rotated files in the directory, and the file being written. */
    var dir: Directory
    var current: string

    /** What was there before this run, and the first suffix that this run uses. */
    ghost const dirBefore: Directory
    ghost const currentBefore: string
    ghost const first: nat
    /** The blocks appended in this run: those in rotated files, by file, and those in the current file. */
    ghost var done: seq<seq<string>>
    ghost var blocks: seq<string>

    /** Everything of `Valid` but the bounds of the counters. */
    ghost predicate Consistent()
      reads this
    {
      && limit > 0
      && |done| == fileSplitCount - first
      && Holds(dir, first, done, currentBefore)
      && current == (if done == [] then currentBefore else "") + Concat(blocks)
      && curBytes == |Concat(blocks)|
      && Grown(dirBefore, dir, first, fileSplitCount)
    }

    ghost predicate Valid()
      reads this
    {
      Consistent() && curBytes < limit && (flushEveryN > 0 ==> count < flushEveryN)
    }

    /** The blocks appended in this run. */
    ghost function Blocks(): seq<string>
      reads this
    {
      Flatten(done) + blocks
    }

    /** The suffixes found are numbered without a gap. */
    ghost predicate Contiguous()
    {
      forall n: nat :: n in dirBefore ==> n < first
    }

    /** Takes the first suffix that is free. */
    constructor (flushEveryN: nat, limit: nat, dir: Directory, current: string)
      requires limit > 0
      ensures Valid() && Blocks() == [] && dirBefore == dir && currentBefore == current
      ensures this.dir == dir && this.current == current
      ensures first == fileSplitCount
    {
      this.flushEveryN, this.limit := flushEveryN, limit;
      this.dir, this.current := dir, current;
      dirBefore, currentBefore := dir, current;
      count, curBytes := 0, 0;
      done, blocks := [], [];
      var k: nat := 0;
      while k in dir
        invariant forall n: nat :: n < k ==> n in dir
        decreases |set n | n in dir && n >= k|
      {
        assert (set n | n in dir && n >= k) == {k} + (set n | n in dir && n >= k + 1);
        k := k + 1;
      }
      first, fileSplitCount := k, k;
    }

    /** Appends a block to the current file, and rotates the file once it is large enough. */
    method Append(line: string)
      requires Valid()
      modifies this
      ensures Valid() && Blocks() == old(Blocks()) + [line]
      ensures old(curBytes) + |line| < limit ==>
                && current == old(current) + line && curBytes == old(curBytes) + |line|
                && dir == old(dir) && fileSplitCount == old(fileSplitCount)
      ensures old(curBytes) + |line| >= limit ==>
                && current == "" && curBytes == 0
                && dir == old(dir)[old(fileSplitCount) := old(current) + line]
                && fileSplitCount == old(fileSplitCount) + 1
    {
      WriteBlock(line);
      if count >= flushEveryN {
        count := 0;
      }
      if curBytes >= limit {
        Rotate();
      }
    }

    method WriteBlock(line: string)
      requires Consistent()
      modifies this
      ensures Consistent() && Blocks() == old(Blocks()) + [line]
      ensures count == old(count) + 1 && curBytes == old(curBytes) + |line| && current == old(current) + line
      ensures dir == old(dir) && fileSplitCount == old(fileSplitCount)
    {
      current := current + line;
      curBytes := curBytes + |line|;
      count := count + 1;
      ConcatAppend(blocks, [line]);
      assert [line][1..] == [] && Concat([line]) == line + "" == line;
      blocks := blocks + [line];
    }

    method Rotate()
      requires Consistent()
      modifies this
      ensures Consistent() && Blocks() == old(Blocks())
      ensures curBytes == 0 && count == 0 && current == ""
      ensures dir == old(dir)[old(fileSplitCount) := old(current)] && fileSplitCount == old(fileSplitCount) + 1
    {
      count := 0;
      HoldsOneMore(dir, first, done, currentBefore, blocks);
      GrownOneMore(dirBefore, dir, first, fileSplitCount, current);
      dir := dir[fileSplitCount := current];
      fileSplitCount := fileSplitCount + 1;
      current := "";
      curBytes := 0;
      FlattenAppend(done, [blocks]);
      FlattenOne(blocks);
      done, blocks := done + [blocks], [];
    }

    /** The rotated files of this run and the current file are what was there and what was appended, in order. */
    lemma StreamIsConserved()
      requires Valid()
      ensures forall n :: first <= n < fileSplitCount ==> n in dir
      ensures Joined(dir, first, fileSplitCount) + current == currentBefore + Concat(Blocks())
    {
      JoinedIsConcat(dir, first, done, currentBefore);
      ConcatAppend(Flatten(done), blocks);
      assert done == [] ==> Flatten(done) + blocks == blocks;
    }

    /** Without a gap in the suffixes found, no file that was there is overwritten. */
    lemma OldFilesAreKept()
      requires Valid() && Contiguous()
      ensures forall n :: n in dirBefore ==> n in dir && dir[n] == dirBefore[n]
    {
    }

    method Flush()
      requires Valid()
      modifies this`count
      ensures Valid() && Blocks() == old(Blocks())
    {
      count := 0;
    }
  }
}
