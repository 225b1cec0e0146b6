/** app/api/stream.py, `split_chunks`: text cut into chunks within a character
    and a UTF-8 byte budget.
 */
module Stream {
  import opened Lists

  /** Octets of one character, by the table in section 3 of RFC 3629. */
  function Octets(c: char): (n: nat)
    ensures 1 <= n <= 4
  {
    if c as int < 0x80 then 1
    else if c as int < 0x800 then 2
    else if c as int < 0x10000 then 3
    else 4
  }

  /** The octets of one character, by the same table. */
  function Encoded(c: char): (r: seq<int>)
  {
    var n := c as int;
    if n < 0x80 then [n]
    else if n < 0x800 then [0xC0 + n / 0x40, 0x80 + n % 0x40]
    else if n < 0x10000 then [0xE0 + n / 0x1000, 0x80 + n / 0x40 % 0x40, 0x80 + n % 0x40]
    else [0xF0 + n / 0x40000, 0x80 + n / 0x1000 % 0x40, 0x80 + n / 0x40 % 0x40, 0x80 + n % 0x40]
  }

  /** How long a sequence is by its first octet, and the number it stands for. */
  function LengthByFirst(octet: int): (n: nat)
  {
    if octet < 0x80 then 1 else if octet < 0xE0 then 2 else if octet < 0xF0 then 3 else 4
  }

  function Decoded(octets: seq<int>): (n: int)
    requires octets != [] && LengthByFirst(octets[0]) <= |octets|
  {
    var a := octets[0];
    match LengthByFirst(a)
    case 1 => a
    case 2 => (a - 0xC0) * 0x40 + (octets[1] - 0x80)
    case 3 => (a - 0xE0) * 0x1000 + (octets[1] - 0x80) * 0x40 + (octets[2] - 0x80)
    case _ => (a - 0xF0) * 0x40000 + (octets[1] - 0x80) * 0x1000 + (octets[2] - 0x80) * 0x40 + (octets[3] - 0x80)
  }

  lemma SixBits(n: nat)
    ensures n / 0x1000 == n / 0x40 / 0x40 && n / 0x40000 == n / 0x1000 / 0x40
  {
  }

  ghost predicate Decodable(octets: seq<int>, n: int)
  {
    && octets != [] && LengthByFirst(octets[0]) == |octets| <= 4
    && 0 <= octets[0] < 0xF8 && (forall i :: 1 <= i < |octets| ==> 0x80 <= octets[i] < 0xC0)
    && Decoded(octets) == n
  }

  lemma ShortEncode(c: char)
    requires c as int < 0x10000
    ensures Decodable(Encoded(c), c as int)
  {
    SixBits(c as int);
  }

  lemma LongEncode(c: char)
    requires c as int >= 0x10000
    ensures Decodable(Encoded(c), c as int)
  {
    SixBits(c as int);
  }

  /** As many octets as the first of them says, and they decode to the character. */
  lemma OctetsEncode(c: char)
    ensures |Encoded(c)| == Octets(c) && Decodable(Encoded(c), c as int)
  {
    if c as int < 0x10000 {
      ShortEncode(c);
    } else {
      LongEncode(c);
    }
  }

  /** The length of `s` in UTF-8. */
  function Bytes(s: string): (n: nat)
    ensures n >= |s|
  {
    if s == "" then 0 else Octets(s[0]) + Bytes(s[1..])
  }

  function EncodedAll(s: string): (r: seq<seq<int>>)
    ensures |r| == |s|
  {
    seq(|s|, i requires 0 <= i < |s| => Encoded(s[i]))
  }

  /** So it is the number of octets of the encoded characters, one after the other. */
  lemma {:induction false} BytesEncode(s: string)
    ensures Bytes(s) == |Concat(EncodedAll(s))|
  {
    if s != "" {
      OctetsEncode(s[0]);
      BytesEncode(s[1..]);
      assert EncodedAll(s)[1..] == EncodedAll(s[1..]);
    }
  }

  datatype Budget = Budget(chars: int, bytes: int)

  predicate Fits(s: string, b: Budget)
  {
    |s| <= b.chars && Bytes(s) <= b.bytes
  }

  /** No single character exceeds the byte budget. */
  ghost predicate NoneOversize(text: string, b: Budget)
  {
    forall i :: 0 <= i < |text| ==> Octets(text[i]) <= b.bytes
  }

  /** The end of the chunk that starts at `start`: the farthest one in budget, or
      one character when none is. */
  ghost predicate IsCut(text: string, b: Budget, start: nat, end: nat)
  {
    && start < end <= |text| && end - start <= b.chars
    && (Fits(text[start..end], b) || end == start + 1)
    && (forall j :: end < j <= |text| ==> !Fits(text[start..j], b))
  }

  /** `chunks` are the pieces of `text[start..at]`, each cut greedily from the text. */
  ghost predicate CutBefore(text: string, b: Budget, start: nat, chunks: seq<string>, at: nat)
    decreases |chunks|
  {
    if chunks == [] then start == at <= |text| else
      && IsCut(text, b, start, start + |chunks[0]|)
      && chunks[0] == text[start..start + |chunks[0]|]
      && CutBefore(text, b, start + |chunks[0]|, chunks[1..], at)
  }

  ghost predicate CutGreedily(text: string, b: Budget, start: nat, chunks: seq<string>)
  {
    CutBefore(text, b, start, chunks, |text|)
  }

  lemma {:induction false} BytesConcat(s: string, t: string)
    ensures Bytes(s + t) == Bytes(s) + Bytes(t)
  {
    if s == "" {
      assert s + t == t;
    } else {
      assert (s + t)[1..] == s[1..] + t;
      BytesConcat(s[1..], t);
    }
  }

  /** Part of a text in budget is in budget. */
  lemma PartFits(text: string, b: Budget, i: nat, j: nat, k: nat, l: nat)
    requires i <= j <= k <= l <= |text| && Fits(text[i..l], b)
    ensures Fits(text[j..k], b)
  {
    assert text[i..l] == text[i..j] + (text[j..k] + text[k..l]);
    BytesConcat(text[i..j], text[j..k] + text[k..l]);
    BytesConcat(text[j..k], text[k..l]);
  }

  lemma {:induction false} GreedyCutsAppend(text: string, b: Budget, start: nat, chunks: seq<string>, at: nat, end: nat)
    requires CutBefore(text, b, start, chunks, at) && IsCut(text, b, at, end)
    ensures CutBefore(text, b, start, chunks + [text[at..end]], end)
    decreases |chunks|
  {
    if chunks != [] {
      GreedyCutsAppend(text, b, start + |chunks[0]|, chunks[1..], at, end);
      assert (chunks + [text[at..end]])[1..] == chunks[1..] + [text[at..end]];
    } else {
      assert ([] + [text[at..end]])[1..] == [];
    }
  }

  method SplitChunks(text: string, chunkChars: int, chunkBytes: int) returns (chunks: seq<string>)
    requires chunkChars >= 1
    ensures CutGreedily(text, Budget(chunkChars, chunkBytes), 0, chunks)
    ensures Concat(chunks) == text
    ensures forall c :: c in chunks ==> 1 <= |c| <= chunkChars && (Bytes(c) <= chunkBytes || |c| == 1)
  {
    ghost var b := Budget(chunkChars, chunkBytes);
    chunks := [];
    var start := 0;
    while start < |text|
      invariant 0 <= start <= |text|
      invariant CutBefore(text, b, 0, chunks, start)
    {
      var end := if start + chunkChars < |text| then start + chunkChars else |text|;
      while end > start && Bytes(text[start..end]) > chunkBytes
        invariant start <= end <= |text| && end - start <= chunkChars
        invariant forall j :: end < j <= |text| ==> !Fits(text[start..j], b)
      {
        end := end - 1;
      }
      if end == start {
        end := start + 1;
      }
      assert IsCut(text, b, start, end);
      GreedyCutsAppend(text, b, 0, chunks, start, end);
      chunks := chunks + [text[start..end]];
      start := end;
    }
    GreedyCovers(text, b, 0, chunks);
  }

  lemma {:induction false} GreedyCovers(text: string, b: Budget, start: nat, chunks: seq<string>)
    requires CutGreedily(text, b, start, chunks)
    ensures start <= |text| && Concat(chunks) == text[start..]
    ensures forall c :: c in chunks ==> 1 <= |c| <= b.chars && (Bytes(c) <= b.bytes || |c| == 1)
    decreases |chunks|
  {
    if start < |text| {
      var end := start + |chunks[0]|;
      GreedyCovers(text, b, end, chunks[1..]);
      assert text[start..] == text[start..end] + text[end..];
    }
  }

  // ----- greedy is optimal -----

  lemma CutFits(text: string, b: Budget, start: nat, end: nat)
    requires NoneOversize(text, b) && b.chars >= 1 && IsCut(text, b, start, end)
    ensures Fits(text[start..end], b)
  {
    if end == start + 1 {
      assert text[start..end][1..] == "";
      assert text[start..end][0] == text[start];
    }
  }

  /** Starting later never cuts earlier. */
  lemma CutsMonotone(text: string, b: Budget, i: nat, j: nat, ei: nat, ej: nat)
    requires NoneOversize(text, b) && b.chars >= 1 && i <= j
    requires IsCut(text, b, i, ei) && IsCut(text, b, j, ej)
    ensures ei <= ej
  {
    if ei > ej {
      CutFits(text, b, i, ei);
      PartFits(text, b, i, j, ei, ei);
    }
  }

  lemma {:induction false} LaterNeedsNoMore(text: string, b: Budget, i: nat, j: nat, ci: seq<string>, cj: seq<string>)
    requires NoneOversize(text, b) && b.chars >= 1 && i <= j
    requires CutGreedily(text, b, i, ci) && CutGreedily(text, b, j, cj)
    ensures |ci| >= |cj|
    decreases |cj|
  {
    if j < |text| {
      CutsMonotone(text, b, i, j, i + |ci[0]|, j + |cj[0]|);
      LaterNeedsNoMore(text, b, i + |ci[0]|, j + |cj[0]|, ci[1..], cj[1..]);
    }
  }

  lemma {:induction false} GreedyExists(text: string, b: Budget, start: nat) returns (chunks: seq<string>)
    requires b.chars >= 1 && start <= |text|
    ensures CutGreedily(text, b, start, chunks)
    decreases |text| - start
  {
    if start == |text| {
      chunks := [];
    } else {
      var end := if start + b.chars < |text| then start + b.chars else |text|;
      while end > start + 1 && !Fits(text[start..end], b)
        invariant start < end <= |text| && end - start <= b.chars
        invariant forall j :: end < j <= |text| ==> !Fits(text[start..j], b)
      {
        end := end - 1;
      }
      var rest := GreedyExists(text, b, end);
      chunks := [text[start..end]] + rest;
    }
  }

  /** Any split of `text[start..]` within both budgets has at least as many chunks. */
  lemma {:induction false} GreedyFrom(text: string, b: Budget, start: nat, chunks: seq<string>, split: seq<string>)
    requires NoneOversize(text, b) && b.chars >= 1
    requires CutGreedily(text, b, start, chunks)
    requires start <= |text| && Concat(split) == text[start..] && forall c :: c in split ==> Fits(c, b)
    ensures |chunks| <= |split|
    decreases |split|
  {
    if split != [] && start < |text| {
      var c := split[0];
      var j := start + |c|;
      assert c in split;
      assert text[start..] == c + Concat(split[1..]);
      assert c == text[start..][..|c|] == text[start..j];
      assert Concat(split[1..]) == text[start..][|c|..] == text[j..];
      var end := start + |chunks[0]|;
      assert j <= end;
      var fromJ := GreedyExists(text, b, j);
      LaterNeedsNoMore(text, b, j, end, fromJ, chunks[1..]);
      GreedyFrom(text, b, j, fromJ, split[1..]);
    }
  }

  /** When no character is oversize, the greedy chunks are within both budgets and
      no split within both budgets has fewer. */
  lemma GreedyIsOptimal(text: string, b: Budget, chunks: seq<string>, split: seq<string>)
    requires NoneOversize(text, b) && b.chars >= 1
    requires CutGreedily(text, b, 0, chunks)
    requires Concat(split) == text && forall c :: c in split ==> Fits(c, b)
    ensures |chunks| <= |split|
    ensures forall c :: c in chunks ==> Fits(c, b)
  {
    assert text[0..] == text;
    GreedyFrom(text, b, 0, chunks, split);
    AllFit(text, b, 0, chunks);
  }

  lemma {:induction false} AllFit(text: string, b: Budget, start: nat, chunks: seq<string>)
    requires NoneOversize(text, b) && b.chars >= 1 && CutGreedily(text, b, start, chunks)
    ensures forall c :: c in chunks ==> Fits(c, b)
    decreases |chunks|
  {
    if start < |text| {
      CutFits(text, b, start, start + |chunks[0]|);
      AllFit(text, b, start + |chunks[0]|, chunks[1..]);
    }
  }
}
