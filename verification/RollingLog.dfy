/** The two-generation rolling JSON-lines file. */
module RollingLog {
  import opened Options

  function Concat(lines: seq<string>): string {
    if lines == [] then "" else Concat(lines[..|lines| - 1]) + lines[|lines| - 1]
  }

  lemma ConcatSnoc(lines: seq<string>, line: string)
    ensures Concat(lines + [line]) == Concat(lines) + line
  {
    assert (lines + [line])[..|lines|] == lines;
  }

  lemma {:induction false} ConcatSplit(a: seq<string>, b: seq<string>)
    ensures Concat(a + b) == Concat(a) + Concat(b)
  {
    if b == [] {
      assert a + b == a;
    } else {
      var init, last := b[..|b| - 1], b[|b| - 1];
      ConcatSplit(a, init);
      assert b == init + [last] && a + b == (a + init) + [last];
      ConcatSnoc(a + init, last);
      ConcatSnoc(init, last);
    }
  }

  predicate IsSuffix(s: string, whole: string) {
    |s| <= |whole| && whole[|whole| - |s|..] == s
  }

  function Bytes(file: Option<string>): string {
    if file.None? then "" else file.value
  }

  /** A file of whole lines that was below the limit when its last line was appended. */
  ghost predicate Generation(content: string, lines: seq<string>, limit: nat) {
    && lines != [] && content == Concat(lines)
    && (|lines| == 1 || |Concat(lines[..|lines| - 1])| < limit)
  }

  lemma NextGeneration(content: Option<string>, lines: seq<string>, limit: nat, line: string)
    requires if content.Some? then Generation(content.value, lines, limit) && |content.value| < limit else lines == []
    ensures Generation(Bytes(content) + line, lines + [line], limit)
  {
    ConcatSnoc(lines, line);
    assert (lines + [line])[..|lines|] == lines;
  }

  /** Backup and log hold lines[oldest..rolled] and lines[rolled..]: whole lines, in order, without a gap
      up to the newest. A backup is at least as long as the limit; without one nothing has been lost. */
  ghost predicate Kept(backup: Option<string>, current: Option<string>, lines: seq<string>,
                       oldest: nat, rolled: nat, limit: nat)
  {
    && oldest <= rolled <= |lines|
    && (if backup.None? then oldest == rolled == 0
        else Generation(backup.value, lines[oldest..rolled], limit) && |backup.value| >= limit)
    && (if current.None? then rolled == |lines|
        else Generation(current.value, lines[rolled..], limit))
  }

  lemma RollKeeps(backup: Option<string>, log: string, lines: seq<string>, oldest: nat, rolled: nat, limit: nat)
    requires Kept(backup, Some(log), lines, oldest, rolled, limit) && |log| >= limit
    ensures Kept(Some(log), None, lines, rolled, |lines|, limit)
  {
    assert lines[rolled..|lines|] == lines[rolled..];
  }

  lemma AppendKeeps(backup: Option<string>, current: Option<string>, lines: seq<string>,
                    oldest: nat, rolled: nat, limit: nat, line: string)
    requires Kept(backup, current, lines, oldest, rolled, limit) && (current.Some? ==> |current.value| < limit)
    ensures Kept(backup, Some(Bytes(current) + line), lines + [line], oldest, rolled, limit)
  {
    NextGeneration(current, lines[rolled..], limit, line);
    Slices(lines, oldest, rolled, line);
  }

  lemma Slices(lines: seq<string>, oldest: nat, rolled: nat, line: string)
    requires oldest <= rolled <= |lines|
    ensures (lines + [line])[rolled..] == lines[rolled..] + [line]
    ensures (lines + [line])[oldest..rolled] == lines[oldest..rolled]
  {}

  class JsonFileSink {
    const maxBytes: nat

    /** Contents of the log file and of its ".1" backup. */
    var current: Option<string>
    var backup: Option<string>

    /** Every line written so far; the backup holds lines[oldest..rolled] and the log lines[rolled..]. */
    ghost var lines: seq<string>
    ghost var oldest: nat
    ghost var rolled: nat

    ghost predicate Valid()
      reads this
    {
      Kept(backup, current, lines, oldest, rolled, maxBytes) && (current.None? <==> lines == [])
    }

    constructor (maxSize: nat)
      ensures Valid() && maxBytes == maxSize && lines == []
    {
      maxBytes, current, backup, lines := maxSize, None, None, [];
      oldest, rolled := 0, 0;
    }

    /** Renames a full log over the backup; its contents move, the old backup is deleted. */
    method RollIfNeeded()
      modifies `current, `backup
      ensures if old(current).Some? && |old(current).value| >= maxBytes
              then current.None? && backup == old(current)
              else current == old(current) && backup == old(backup)
    {
      if current.None? || |current.value| < maxBytes {
        return;
      }
      if backup.Some? {
        backup := None;
      }
      backup, current := current, None;
    }

    /** Appends one JSON line, rolling first. */
    method HandleMessage(line: string)
      requires Valid()
      modifies this
      ensures Valid() && lines == old(lines) + [line]
      ensures if old(current).Some? && |old(current).value| >= maxBytes
              then backup == old(current) && current == Some(line)
              else backup == old(backup) && current == Some(Bytes(old(current)) + line)
    {
      if current.Some? && |current.value| >= maxBytes {
        RollKeeps(backup, current.value, lines, oldest, rolled, maxBytes);
        oldest, rolled := rolled, |lines|;
      }
      RollIfNeeded();
      AppendKeeps(backup, current, lines, oldest, rolled, maxBytes, line);
      assert "" + line == line;
      current := Some(Bytes(current) + line);
      lines := lines + [line];
    }
  }

  /** After any messages the two files together are the newest lines written, whole and in order: all of
      them, or at least as many bytes as the limit. */
  lemma NewestLinesKept(sink: JsonFileSink)
    requires sink.Valid()
    ensures var kept, total := Bytes(sink.backup) + Bytes(sink.current), Concat(sink.lines);
      && kept == Concat(sink.lines[sink.oldest..])
      && IsSuffix(kept, total)
      && |kept| >= (if |total| < sink.maxBytes then |total| else sink.maxBytes)
      && (sink.oldest > 0 ==> |kept| >= sink.maxBytes)
  {
    var lines, oldest, rolled := sink.lines, sink.oldest, sink.rolled;
    ConcatTail(lines, oldest);
    ConcatTail(lines[oldest..], rolled - oldest);
    SliceOfTail(lines, oldest, rolled);
    TailIsSuffix(Concat(lines[..oldest]), Concat(lines[oldest..]));
  }

  lemma ConcatTail(lines: seq<string>, i: nat)
    requires i <= |lines|
    ensures Concat(lines) == Concat(lines[..i]) + Concat(lines[i..])
  {
    ConcatSplit(lines[..i], lines[i..]);
    assert lines[..i] + lines[i..] == lines;
  }

  lemma SliceOfTail(lines: seq<string>, i: nat, j: nat)
    requires i <= j <= |lines|
    ensures lines[i..][..j - i] == lines[i..j] && lines[i..][j - i..] == lines[j..]
    ensures i == 0 ==> lines[i..] == lines
  {}

  lemma TailIsSuffix(a: string, b: string)
    ensures IsSuffix(b, a + b)
  {}

  /** Neither file ever exceeds the limit by more than its last line, so the disk holds less than twice
      the limit and two lines. */
  lemma DiskIsBounded(sink: JsonFileSink, longest: nat)
    requires sink.Valid() && sink.maxBytes >= 1
    requires forall i | 0 <= i < |sink.lines| :: |sink.lines[i]| <= longest
    ensures |Bytes(sink.current)| < sink.maxBytes + longest && |Bytes(sink.backup)| < sink.maxBytes + longest
  {
    if sink.current.Some? {
      GenerationBound(sink.current.value, sink.lines[sink.rolled..], sink.maxBytes);
    }
    if sink.backup.Some? {
      GenerationBound(sink.backup.value, sink.lines[sink.oldest..sink.rolled], sink.maxBytes);
    }
  }

  lemma GenerationBound(content: string, lines: seq<string>, limit: nat)
    requires Generation(content, lines, limit) && limit >= 1
    ensures |content| < limit + |lines[|lines| - 1]|
  {
    var init := lines[..|lines| - 1];
    assert |Concat(lines)| == |Concat(init)| + |lines[|lines| - 1]|;
    assert |lines| == 1 ==> init == [];
  }
}
