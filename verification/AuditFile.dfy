/** app/audit/file.py: appending to a log file that is rotated into numbered
    backups once it is full.
 */
module AuditFile {
  import opened Wrappers
  import opened Lists
  import opened Stream

  datatype Config = Config(maxBytes: int, rotationBackups: int)

  /** The files by content: the current one, and the backups from `path.1`
      (the youngest) on.  Lines include their newline. */
  datatype Files = Files(current: Option<seq<string>>, backups: seq<seq<string>>)

  function Size(lines: seq<string>): (n: nat)
  {
    if lines == [] then 0 else Size(lines[..|lines| - 1]) + Bytes(lines[|lines| - 1])
  }

  function Take<T>(s: seq<T>, n: nat): (r: seq<T>) { if |s| <= n then s else s[..n] }

  predicate Full(f: Files, c: Config)
  {
    c.maxBytes > 0 && f.current.Some? && Size(f.current.value) >= c.maxBytes
  }

  function Rotated(f: Files, c: Config): (r: Files)
  {
    if !Full(f, c) then f
    else if c.rotationBackups <= 0 then f.(current := Some([]))
    else Files(None, Take([f.current.value] + f.backups, c.rotationBackups))
  }

  function Appended(f: Files, line: string, c: Config): (r: Files)
  {
    var g := Rotated(f, c);
    g.(current := Some((if g.current.None? then [] else g.current.value) + [line]))
  }

  /** The files that appending `lines` to a fresh directory leaves. */
  function After(lines: seq<string>, c: Config): (r: Files)
  {
    if lines == [] then Files(None, []) else
      Appended(After(lines[..|lines| - 1], c), lines[|lines| - 1], c)
  }

  /** The backups from the oldest to the youngest, in one list. */
  function Older(backups: seq<seq<string>>): (r: seq<string>)
  {
    if backups == [] then [] else Older(backups[1..]) + backups[0]
  }

  /** Everything still on disk, oldest line first. */
  function Retained(f: Files): (r: seq<string>)
  {
    Older(f.backups) + if f.current.None? then [] else f.current.value
  }

  /** The numbers in use have no gap. */
  ghost predicate Contiguous(m: map<int, seq<string>>)
  {
    forall i :: i in m <==> 1 <= i <= |m|
  }

  ghost function Listed(m: map<int, seq<string>>): (r: seq<seq<string>>)
    requires Contiguous(m)
    ensures |r| == |m|
  {
    seq(|m|, i requires 0 <= i < |m| && Contiguous(m) => m[i + 1])
  }

  /** Renames are done for the numbers above `i`: those files moved up by one. */
  ghost predicate Shifted(before: map<int, seq<string>>, now: map<int, seq<string>>, i: int, n: int)
  {
    && (forall j :: j < i ==> (j in now <==> j in before) && (j in before ==> now[j] == before[j]))
    && (forall j :: j > i ==>
          && (j in now <==> j <= n && j - 1 in before)
          && (j in now && j - 1 in before ==> now[j] == before[j - 1]))
    && (i == n ==> (i in now <==> i in before))
    && (i < n ==> i !in now)
  }

  lemma ShiftOne(before: map<int, seq<string>>, now: map<int, seq<string>>, i: int, n: int)
    requires Contiguous(before) && Shifted(before, now, i, n) && 1 < i <= n
    ensures Shifted(before, if i - 1 in now then now[i := now[i - 1]] - {i - 1} else now, i - 1, n)
  {
  }

  class RotatingLog {
    const config: Config
    /** The file `path`, if it exists. */
    var current: Option<seq<string>>
    /** The files `path.1`, `path.2`, ... that exist. */
    var numbered: map<int, seq<string>>

    ghost predicate Valid()
      reads this
    {
      Contiguous(numbered) && |numbered| <= if config.rotationBackups > 0 then config.rotationBackups else 0
    }

    ghost function Contents(): (f: Files)
      requires Valid()
      reads this
    {
      Files(current, Listed(numbered))
    }

    constructor (c: Config)
      ensures Valid() && config == c && Contents() == Files(None, [])
    {
      config := c;
      current := None;
      numbered := map[];
    }

    method AppendLine(line: string)
      requires Valid()
      modifies this
      ensures Valid() && Contents() == Appended(old(Contents()), line, config)
    {
      RotateIfNeeded();
      var kept := if current.None? then [] else current.value;
      current := Some(kept + [line]);
    }

    method RotateIfNeeded()
      requires Valid()
      modifies this
      ensures Valid() && Contents() == Rotated(old(Contents()), config)
    {
      if config.maxBytes <= 0 {
        return;
      }
      if current.None? || Size(current.value) < config.maxBytes {
        return;
      }
      if config.rotationBackups <= 0 {
        current := Some([]);
        return;
      }
      ghost var before := numbered;
      ShiftBackups();
      ShiftedListing(before, numbered, current.value, config.rotationBackups);
      numbered := numbered[1 := current.value];
      current := None;
    }

    /** The renames, from the highest number down. */
    method ShiftBackups()
      requires Valid() && config.rotationBackups >= 1
      modifies this`numbered
      ensures Shifted(old(numbered), numbered, 1, config.rotationBackups)
    {
      ghost var before := numbered;
      var i := config.rotationBackups;
      while i > 1
        invariant 1 <= i <= config.rotationBackups
        invariant Shifted(before, numbered, i, config.rotationBackups)
      {
        ShiftOne(before, numbered, i, config.rotationBackups);
        if i - 1 in numbered {
          numbered := numbered[i := numbered[i - 1]];
          numbered := numbered - {i - 1};
        }
        i := i - 1;
      }
    }
  }

  lemma {:induction false} KeysCount(m: map<int, seq<string>>, n: nat)
    requires forall i :: i in m <==> 1 <= i <= n
    ensures |m| == n
  {
    if n == 0 {
      assert m == map[];
    } else {
      var rest := m - {n};
      KeysCount(rest, n - 1);
      assert m == rest[n := m[n]];
    }
  }

  /** After the renames, writing number 1 puts the file in front of the backups. */
  lemma ShiftedListing(before: map<int, seq<string>>, now: map<int, seq<string>>, file: seq<string>, n: int)
    requires Contiguous(before) && |before| <= n && n >= 1 && Shifted(before, now, 1, n)
    ensures Contiguous(now[1 := file])
    ensures Listed(now[1 := file]) == Take([file] + Listed(before), n)
  {
    var after := now[1 := file];
    var k := if |before| < n then |before| + 1 else n;
    forall j ensures j in after <==> 1 <= j <= k {
      assert j > 1 ==> (j in now <==> j <= n && j - 1 in before);
      assert j < 1 ==> (j in now <==> j in before);
    }
    KeysCount(after, k);
    forall j | 0 <= j < k ensures Listed(after)[j] == ([file] + Listed(before))[j] {
      if j > 0 {
        assert j + 1 in now && j in before;
      }
    }
  }

  // ----- what is retained, over any number of appends -----

  lemma {:induction false} OlderTake(backups: seq<seq<string>>, n: nat)
    ensures IsSuffix(Older(Take(backups, n)), Older(backups))
  {
    if backups != [] && n > 0 {
      OlderTake(backups[1..], n - 1);
      assert Take(backups, n)[0] == backups[0];
      assert Take(backups, n)[1..] == Take(backups[1..], n - 1);
    } else {
      assert Take(backups, n) == [];
    }
  }

  lemma RotationKeepsSuffix(f: Files, c: Config)
    requires c.rotationBackups <= 0 ==> f.backups == []
    ensures IsSuffix(Retained(Rotated(f, c)), Retained(f))
    ensures c.rotationBackups > |f.backups| ==> Retained(Rotated(f, c)) == Retained(f)
  {
    if Full(f, c) && c.rotationBackups > 0 {
      var all := [f.current.value] + f.backups;
      assert all[1..] == f.backups;
      assert Older(all) == Retained(f);
      OlderTake(all, c.rotationBackups);
    } else if Full(f, c) {
      assert Retained(f) == Older(f.backups) + f.current.value;
    }
  }

  /** What every number of appends keeps. */
  ghost predicate Kept(f: Files, lines: seq<string>, c: Config)
  {
    && |f.backups| <= (if c.rotationBackups > 0 then c.rotationBackups else 0)
    && IsSuffix(Retained(f), lines)
    && (|f.backups| < c.rotationBackups || c.maxBytes <= 0 ==> Retained(f) == lines)
    && (forall b :: b in f.backups ==> Size(b) >= c.maxBytes)
    && (c.maxBytes > 0 ==> forall b :: b in f.backups ==> LateOverflow(b, c))
    && (c.maxBytes > 0 && f.current.Some? ==> LateOverflow(f.current.value, c))
  }

  /** Without its last line the file was not full yet. */
  ghost predicate LateOverflow(file: seq<string>, c: Config)
  {
    file != [] ==> Size(file[..|file| - 1]) < c.maxBytes
  }

  lemma RotationKeeps(f: Files, lines: seq<string>, c: Config)
    requires Kept(f, lines, c)
    ensures Kept(Rotated(f, c), lines, c) && !Full(Rotated(f, c), c)
  {
    if Full(f, c) {
      RotationKeepsSuffix(f, c);
      SuffixOfSuffix(Retained(Rotated(f, c)), Retained(f), lines);
      if c.rotationBackups > 0 {
        BackupsAfter(f.current.value, f.backups, c);
      }
    }
  }

  /** A full file, and a list of full ones, trimmed to the number of slots. */
  lemma BackupsAfter(file: seq<string>, backups: seq<seq<string>>, c: Config)
    requires c.rotationBackups > 0 && c.maxBytes > 0 && Size(file) >= c.maxBytes && LateOverflow(file, c)
    requires forall b :: b in backups ==> Size(b) >= c.maxBytes && LateOverflow(b, c)
    ensures var all := Take([file] + backups, c.rotationBackups);
      && |all| <= c.rotationBackups && (|all| < c.rotationBackups ==> |backups| < c.rotationBackups)
      && forall b :: b in all ==> Size(b) >= c.maxBytes && LateOverflow(b, c)
  {
    forall b | b in Take([file] + backups, c.rotationBackups) ensures b == file || b in backups {
    }
  }

  lemma WriteKeeps(g: Files, lines: seq<string>, line: string, c: Config)
    requires Kept(g, lines, c) && !Full(g, c)
    ensures var file := if g.current.None? then [] else g.current.value;
      Kept(g.(current := Some(file + [line])), lines + [line], c)
  {
    var file := if g.current.None? then [] else g.current.value;
    var h := g.(current := Some(file + [line]));
    assert Retained(h) == Retained(g) + [line];
    assert (file + [line])[..|file|] == file;
  }

  lemma AppendKeeps(f: Files, lines: seq<string>, line: string, c: Config)
    requires Kept(f, lines, c)
    ensures Kept(Appended(f, line, c), lines + [line], c)
  {
    RotationKeeps(f, lines, c);
    WriteKeeps(Rotated(f, c), lines, line, c);
  }

  lemma {:induction false} AfterKeeps(lines: seq<string>, c: Config)
    ensures Kept(After(lines, c), lines, c)
  {
    if lines != [] {
      var init, last := lines[..|lines| - 1], lines[|lines| - 1];
      assert lines == init + [last];
      assert After(lines, c) == Appended(After(init, c), last, c);
      AfterKeeps(init, c);
      AppendKeeps(After(init, c), init, last, c);
    }
  }

  /** After any number of appends the backups N..1 and the current file, read in
      that order, are a suffix of everything ever written, in order and without a
      gap.  Every backup is full, and if anything is missing then every backup slot
      is taken; with no slots at all a full file is given up. */
  lemma HistorySuffix(lines: seq<string>, c: Config)
    ensures var f, slots := After(lines, c), if c.rotationBackups > 0 then c.rotationBackups else 0;
      && IsSuffix(Retained(f), lines)
      && |f.backups| <= slots
      && (forall b :: b in f.backups ==> Size(b) >= c.maxBytes)
      && (Retained(f) == lines || (|f.backups| == slots && c.maxBytes > 0))
  {
    AfterKeeps(lines, c);
  }

  /** No file outgrows the limit by more than its last line. */
  lemma FilesStayBounded(lines: seq<string>, c: Config, file: seq<string>)
    requires c.maxBytes >= 1 && file != []
    requires file in After(lines, c).backups || After(lines, c).current == Some(file)
    ensures Size(file) < c.maxBytes + Bytes(file[|file| - 1])
  {
    AfterKeeps(lines, c);
    assert LateOverflow(file, c);
  }
}
