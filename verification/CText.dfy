/** The C string functions the rules engine calls: strlen-style reading, strchr, strstr, memmem, strncpy, fgets. */
module CText {
  import opened Options

  /** The C string stored in mem: everything before the first NUL. */
  function CStr(mem: string): string {
    if mem == [] || mem[0] == '\0' then [] else [mem[0]] + CStr(mem[1..])
  }

  lemma {:induction false} CStrIsPrefix(mem: string)
    ensures var s := CStr(mem); s <= mem && '\0' !in s && (|s| < |mem| ==> mem[|s|] == '\0')
  {
    if mem != [] && mem[0] != '\0' {
      CStrIsPrefix(mem[1..]);
    }
  }

  lemma {:induction false} CStrAppend(s: string, mem: string)
    requires '\0' !in s
    ensures CStr(s + mem) == s + CStr(mem)
  {
    if s == [] {
      assert s + mem == mem;
    } else {
      CStrAppend(s[1..], mem);
      assert (s + mem)[1..] == s[1..] + mem;
      assert s[0] in s;
    }
  }

  lemma CStrTerminated(s: string)
    requires '\0' !in s
    ensures CStr(s + "\0") == s
  {
    CStrAppend(s, "\0");
  }

  lemma NotInConcat(a: string, b: string, c: char)
    requires c !in a && c !in b
    ensures c !in a + b
  {
  }

  lemma DropPrefix(a: string, b: string, c: string)
    ensures (a + b + c)[|a|..] == b + c
  {
  }

  predicate At(hay: string, needle: string, j: nat) {
    j + |needle| <= |hay| && hay[j..j + |needle|] == needle
  }

  /** One wrong character rules an occurrence out. */
  lemma NotAt(hay: string, needle: string, j: nat, k: nat)
    requires k < |needle| && j + |needle| <= |hay| && hay[j + k] != needle[k]
    ensures !At(hay, needle, j)
  {
    assert hay[j..j + |needle|][k] == hay[j + k];
  }

  ghost predicate Contains(hay: string, needle: string) {
    exists j: nat :: At(hay, needle, j)
  }

  function IndexFrom(hay: string, needle: string, i: nat): (r: Option<nat>)
    ensures r.Some? ==> r.value + |needle| <= |hay|
    decreases |hay| - i
  {
    if i + |needle| > |hay| then None
    else if At(hay, needle, i) then Some(i)
    else IndexFrom(hay, needle, i + 1)
  }

  /** strstr and memmem: the first occurrence of needle. */
  function IndexOf(hay: string, needle: string): (r: Option<nat>)
    ensures r.Some? ==> r.value + |needle| <= |hay|
  {
    IndexFrom(hay, needle, 0)
  }

  lemma {:induction false} IndexFromFirst(hay: string, needle: string, i: nat)
    ensures var r := IndexFrom(hay, needle, i);
            && (r.Some? ==>
                  i <= r.value && At(hay, needle, r.value) && forall j: nat | i <= j < r.value :: !At(hay, needle, j))
            && (r.None? ==> forall j: nat | i <= j :: !At(hay, needle, j))
    decreases |hay| - i
  {
    if i + |needle| <= |hay| && !At(hay, needle, i) {
      IndexFromFirst(hay, needle, i + 1);
    }
  }

  /** The search finds the first occurrence, and fails only when there is none. */
  lemma IndexOfFirst(hay: string, needle: string)
    ensures var r := IndexOf(hay, needle);
            && (r.Some? ==> At(hay, needle, r.value) && forall j: nat | j < r.value :: !At(hay, needle, j))
            && (r.None? ==> !Contains(hay, needle))
  {
    IndexFromFirst(hay, needle, 0);
  }

  lemma IndexOfIs(hay: string, needle: string, i: nat)
    requires At(hay, needle, i) && forall j: nat | j < i :: !At(hay, needle, j)
    ensures IndexOf(hay, needle) == Some(i)
  {
    IndexOfFirst(hay, needle);
  }

  /** A text without one of needle's characters does not contain needle. */
  lemma IndexOfMissing(hay: string, needle: string, k: nat)
    requires k < |needle| && needle[k] !in hay
    ensures IndexOf(hay, needle) == None
  {
    IndexOfFirst(hay, needle);
  }

  /** What follows the first occurrence of op. */
  function After(s: string, op: string): Option<string> {
    match IndexOf(s, op)
    case None => None
    case Some(i) => Some(s[i + |op|..])
  }

  lemma AtInside(pre: string, text: string, post: string, op: string, j: nat)
    requires j + |op| <= |text|
    ensures At(pre + text + post, op, |pre| + j) <==> At(text, op, j)
  {
    assert (pre + text + post)[|pre| + j..|pre| + j + |op|] == text[j..j + |op|];
  }

  /** When op can only occur inside text, what surrounds text does not disturb the search. */
  lemma AfterInside(pre: string, text: string, post: string, op: string)
    requires forall j: nat | At(pre + text + post, op, j) :: |pre| <= j && j + |op| <= |pre| + |text|
    ensures After(pre + text + post, op) ==
              match After(text, op) case None => None case Some(rest) => Some(rest + post)
  {
    var s := pre + text + post;
    IndexOfFirst(text, op);
    forall j: nat | At(s, op, j)
      ensures At(text, op, j - |pre|)
    {
      AtInside(pre, text, post, op, j - |pre|);
    }
    match IndexOf(text, op)
    case None =>
      IndexOfFirst(s, op);
    case Some(i) =>
      AtInside(pre, text, post, op, i);
      IndexOfIs(s, op, |pre| + i);
      assert s[|pre| + i + |op|..] == text[i + |op|..] + post;
  }

  lemma ContainsTransitive(a: string, b: string, c: string)
    requires Contains(a, b) && Contains(b, c)
    ensures Contains(a, c)
  {
    var i: nat :| At(a, b, i);
    var j: nat :| At(b, c, j);
    forall k | 0 <= k < |c|
      ensures a[i + j + k] == c[k]
    {
      assert a[i..i + |b|][j + k] == a[i + j + k] && b[j..j + |c|][k] == b[j + k];
    }
    assert At(a, c, i + j);
  }

  lemma ContainsLacks(hay: string, needle: string, c: char)
    requires c in needle && c !in hay
    ensures !Contains(hay, needle)
  {
    var k :| 0 <= k < |needle| && needle[k] == c;
    IndexOfMissing(hay, needle, k);
    IndexOfFirst(hay, needle);
  }

  /** strncpy(dst, src, n): copies up to n characters and pads with NULs; the rest of dst stays. */
  function Strncpy(dst: string, src: string, n: nat): (r: string)
    requires n <= |dst|
    ensures |r| == |dst|
  {
    Padded(src, n) + dst[n..]
  }

  function Padded(src: string, n: nat): (r: string)
    ensures |r| == n
  {
    if |src| >= n then src[..n] else src + seq(n - |src|, _ => '\0')
  }

  lemma PaddedReads(src: string, n: nat, rest: string)
    requires '\0' !in src && |src| < n
    ensures CStr(Padded(src, n) + rest) == src
  {
    CStrAppend(src, seq(n - |src|, _ => '\0') + rest);
    assert Padded(src, n) + rest == src + (seq(n - |src|, _ => '\0') + rest);
  }

  /** A strncpy of n characters into n + 1 bytes of unknown content reads back whole exactly when it left room. */
  lemma StrncpyReadsBack(src: string, n: nat)
    requires '\0' !in src
    ensures (forall dst: string | |dst| == n + 1 :: CStr(Strncpy(dst, src, n)) == src) <==> |src| < n
  {
    if |src| < n {
      forall dst: string | |dst| == n + 1
        ensures CStr(Strncpy(dst, src, n)) == src
      {
        PaddedReads(src, n, dst[n..]);
      }
    } else {
      var last := if |src| == n then 'x' else '\0';
      var dst := seq(n, _ => 'x') + [last];
      assert dst[n..] == [last];
      assert '\0' !in src[..n];
      CStrAppend(src[..n], [last]);
      assert [last][1..] == [];
      assert |CStr(Strncpy(dst, src, n))| == n + |CStr([last])|;
    }
  }

  // ---------------------------------------------------------------- reading lines

  /** The size of the line buffer passed to fgets. */
  const LINE := 512

  /** How much fgets takes: through the first newline, or LINE - 1 characters, or to the end. */
  function ChunkLen(s: string, limit: nat): (n: nat)
    ensures n <= |s| && n <= limit
    ensures s != [] && limit > 0 ==> n > 0
  {
    if s == [] || limit == 0 then 0
    else if s[0] == '\n' then 1
    else 1 + ChunkLen(s[1..], limit - 1)
  }

  /** The successive buffers that a loop of fgets sees. */
  function Chunks(file: string): seq<string>
    decreases |file|
  {
    if file == [] then []
    else
      var n := ChunkLen(file, LINE - 1);
      [file[..n]] + Chunks(file[n..])
  }

  function Joined(chunks: seq<string>): string {
    if chunks == [] then [] else chunks[0] + Joined(chunks[1..])
  }

  /** How one fgets with 512 bytes reads: up to 511 characters, a newline only last, and no less if there is more. */
  predicate ReadByFgets(chunk: string, last: bool) {
    && 0 < |chunk| <= 511
    && '\n' !in chunk[..|chunk| - 1]
    && (last || |chunk| == 511 || chunk[|chunk| - 1] == '\n')
  }

  lemma {:induction false} ChunkLenIs(s: string, limit: nat)
    requires s != [] && limit > 0
    ensures var n := ChunkLen(s, limit);
            0 < n && '\n' !in s[..n - 1] && (n == |s| || n == limit || s[n - 1] == '\n')
  {
    if s[0] != '\n' && |s| > 1 && limit > 1 {
      ChunkLenIs(s[1..], limit - 1);
      var n := ChunkLen(s[1..], limit - 1);
      assert s[..n] == [s[0]] + s[1..][..n - 1];
    }
  }

  lemma FirstChunk(file: string)
    requires file != []
    ensures ReadByFgets(file[..ChunkLen(file, LINE - 1)], ChunkLen(file, LINE - 1) == |file|)
  {
    ChunkLenIs(file, LINE - 1);
    var n := ChunkLen(file, LINE - 1);
    assert file[..n][..n - 1] == file[..n - 1];
  }

  /** The chunks are the file, cut up the way fgets does. */
  lemma {:induction false} ChunksAre(file: string)
    ensures Joined(Chunks(file)) == file && (file == [] <==> Chunks(file) == [])
    ensures forall i | 0 <= i < |Chunks(file)| :: ReadByFgets(Chunks(file)[i], i == |Chunks(file)| - 1)
    decreases |file|
  {
    if file != [] {
      var n := ChunkLen(file, LINE - 1);
      var chunks, rest := Chunks(file), Chunks(file[n..]);
      FirstChunk(file);
      ChunksAre(file[n..]);
      assert chunks == [file[..n]] + rest && chunks[1..] == rest;
      assert file == file[..n] + file[n..];
      forall i | 0 <= i < |chunks|
        ensures ReadByFgets(chunks[i], i == |chunks| - 1)
      {
        if i > 0 {
          assert chunks[i] == rest[i - 1];
        }
      }
    }
  }

  /** A line that fits the buffer is read as one chunk; if its newline does not, that is a chunk of its own. */
  lemma ChunksLine(line: string, rest: string)
    requires '\n' !in line && |line| <= LINE - 1
    ensures Chunks(line + ['\n'] + rest) ==
              (if |line| < LINE - 1 then [line + ['\n']] else [line, ['\n']]) + Chunks(rest)
  {
    var file := line + ['\n'] + rest;
    if |line| < LINE - 1 {
      ChunkLenLine(line, rest, LINE - 1);
      assert file[..|line| + 1] == line + ['\n'];
      assert file[|line| + 1..] == rest;
    } else {
      ChunkLenFull(line, ['\n'] + rest);
      assert file == line + (['\n'] + rest);
      assert file[..|line|] == line && file[|line|..] == ['\n'] + rest;
      assert (['\n'] + rest)[..1] == ['\n'] && (['\n'] + rest)[1..] == rest;
      assert Chunks(['\n'] + rest) == [['\n']] + Chunks(rest);
    }
  }

  lemma {:induction false} ChunkLenFull(line: string, rest: string)
    requires '\n' !in line
    ensures ChunkLen(line + rest, |line|) == |line|
  {
    if line != [] {
      ChunkLenFull(line[1..], rest);
      assert (line + rest)[1..] == line[1..] + rest;
      assert line[0] in line;
    }
  }

  lemma {:induction false} ChunkLenLine(line: string, rest: string, limit: nat)
    requires '\n' !in line && |line| + 1 <= limit
    ensures ChunkLen(line + ['\n'] + rest, limit) == |line| + 1
  {
    if line != [] {
      ChunkLenLine(line[1..], rest, limit - 1);
      assert (line + ['\n'] + rest)[1..] == line[1..] + ['\n'] + rest;
      assert line[0] in line;
    }
  }

  /** The text of a chunk: the newline, like a NUL, ends it. */
  function LineText(chunk: string): string {
    if chunk == [] || chunk[0] == '\0' || chunk[0] == '\n' then [] else [chunk[0]] + LineText(chunk[1..])
  }

  /** It is the longest part from the start with neither of them. */
  lemma {:induction false} LineTextEnds(chunk: string)
    ensures var t := LineText(chunk);
            && t <= chunk && '\0' !in t && '\n' !in t
            && (t == chunk || chunk[|t|] == '\0' || chunk[|t|] == '\n')
  {
    if chunk != [] && chunk[0] != '\0' && chunk[0] != '\n' {
      LineTextEnds(chunk[1..]);
    }
  }

  /** A newline at the end makes no difference. */
  lemma {:induction false} LineTextNewline(line: string)
    requires '\n' !in line
    ensures LineText(line + ['\n']) == LineText(line)
  {
    if line != [] {
      LineTextNewline(line[1..]);
      assert (line + ['\n'])[1..] == line[1..] + ['\n'];
      assert line[0] in line;
    }
  }

  lemma {:induction false} LineTextBare(line: string)
    requires '\0' !in line && '\n' !in line
    ensures LineText(line) == line
  {
    if line != [] {
      LineTextBare(line[1..]);
      assert line[0] in line;
    }
  }
}
