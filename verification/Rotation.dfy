/** app/audit/file.py: what one more line does to the files of a log. */
module Rotation {
  import opened Wrappers
  import opened Lists
  import opened Stream
  import opened AuditFile

  /** What one more line does: it joins the file; or, if the file had reached the limit,
      it begins a new one, and the full file becomes the first backup, the others moving
      up by one and the last slot being given up; without slots the full file is lost. */
  lemma NextLine(lines: seq<string>, line: string, c: Config)
    ensures var f, g := After(lines, c), After(lines + [line], c);
            var file := if f.current.Some? then f.current.value else [];
            var full := c.maxBytes > 0 && f.current.Some? && Size(file) >= c.maxBytes;
      && (!full ==> g == Files(Some(file + [line]), f.backups))
      && (full && c.rotationBackups <= 0 ==> g == Files(Some([line]), f.backups))
      && (full && c.rotationBackups > 0 ==>
            && g.current == Some([line]) && g.backups != [] && g.backups[0] == file
            && |g.backups| == (if |f.backups| < c.rotationBackups then |f.backups| + 1 else c.rotationBackups)
            && forall i :: 0 < i < |g.backups| ==> g.backups[i] == f.backups[i - 1])
  {
    var f, all := After(lines, c), lines + [line];
    assert all[..|lines|] == lines && all[|lines|] == line;
    assert After(all, c) == Appended(f, line, c);
    AfterKeeps(lines, c);
    NextFiles(f, line, c);
  }

  lemma NextFiles(f: Files, line: string, c: Config)
    requires |f.backups| <= if c.rotationBackups > 0 then c.rotationBackups else 0
    ensures var g, file := Appended(f, line, c), if f.current.Some? then f.current.value else [];
      && (!Full(f, c) ==> g == Files(Some(file + [line]), f.backups))
      && (Full(f, c) && c.rotationBackups <= 0 ==> g == Files(Some([line]), f.backups))
      && (Full(f, c) && c.rotationBackups > 0 ==>
            && g.current == Some([line]) && g.backups != [] && g.backups[0] == file
            && |g.backups| == (if |f.backups| < c.rotationBackups then |f.backups| + 1 else c.rotationBackups)
            && forall i :: 0 < i < |g.backups| ==> g.backups[i] == f.backups[i - 1])
  {
    assert [] + [line] == [line];
  }

  /** The size of a file is that of its lines, written one after the other. */
  lemma {:induction false} SizeIsWritten(lines: seq<string>)
    ensures Size(lines) == Bytes(Concat(lines))
  {
    if lines != [] {
      var k := |lines| - 1;
      SizeIsWritten(lines[..k]);
      ConcatSnoc(lines[..k], lines[k]);
      BytesConcat(Concat(lines[..k]), lines[k]);
      assert lines == lines[..k] + [lines[k]];
    }
  }
}
