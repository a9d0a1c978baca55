/** Splitting a path at its slashes and normalising away "." and "..". */
module PathWalk {
  import opened Common

  const MAX_SEGMENTS: nat := 8
  const MAX_CHARS: nat := 128

  /** A parsed path: at most MAX_SEGMENTS non-empty segments. */
  datatype Parts = Parts(segs: seq<string>, absolute: bool)

  // ---------------------------------------------------------------- meaning of a path string

  function FirstSlash(p: string): (n: nat)
    ensures n <= |p| && (n < |p| ==> p[n] == '/')
    ensures forall i: nat | i < n :: p[i] != '/'
  {
    if p == "" || p[0] == '/' then 0 else FirstSlash(p[1..]) + 1
  }

  /** All non-empty segments of a path. */
  function Segs(p: string): (s: seq<string>)
    ensures Clean(s)
    decreases |p|
  {
    if p == "" then []
    else if p[0] == '/' then Segs(p[1..])
    else
      var n := FirstSlash(p);
      [p[..n]] + Segs(p[n..])
  }

  ghost predicate CleanSeg(s: string) {
    s != "" && forall i: nat | i < |s| :: s[i] != '/'
  }

  ghost predicate Clean(segs: seq<string>) {
    forall i: nat | i < |segs| :: CleanSeg(segs[i])
  }

  function Take(s: seq<string>): seq<string>
  {
    if |s| <= MAX_SEGMENTS then s else s[..MAX_SEGMENTS]
  }

  /** What parsing means: only the first eight segments count. */
  function Parsed(p: string): Option<Parts>
  {
    if p == "" || |p| >= MAX_CHARS then None else Some(Parts(Take(Segs(p)), p[0] == '/'))
  }

  method PathParse(input: string) returns (result: Option<Parts>)
    ensures result == Parsed(input)
    ensures result.Some? <==> 0 < |input| < 128
    ensures result.Some? ==> (result.value.absolute <==> input[0] == '/')
    ensures result.Some? ==> result.value.segs <= Segs(input)
    ensures result.Some? ==> |result.value.segs| == if |Segs(input)| <= 8 then |Segs(input)| else 8
  {
    var len := |input|;
    if len == 0 || len >= MAX_CHARS {
      return None;
    }
    var absolute := input[0] == '/';
    var segs := Split(input, if absolute then 1 else 0);
    TakeFacts(Segs(input));
    return Some(Parts(segs, absolute));
  }

  /** Cuts the path at its slashes until it ends or eight segments are found. */
  method Split(input: string, from: nat) returns (segs: seq<string>)
    requires from <= |input| && Segs(input[from..]) == Segs(input)
    ensures segs == Take(Segs(input))
  {
    var len, i := |input|, from;
    segs := [];
    while i < len && |segs| < MAX_SEGMENTS
      invariant i <= len && |segs| <= MAX_SEGMENTS
      invariant segs + Segs(input[i..]) == Segs(input)
      decreases len - i
    {
      var start := i;
      i := ScanSegment(input, start);
      ScanStep(input, start, i);
      if i - start > 0 {
        ghost var rest := Segs(input[if i < len then i + 1 else i..]);
        assert segs + ([input[start..i]] + rest) == segs + [input[start..i]] + rest;
        segs := segs + [input[start..i]];
      }
      if i < len && input[i] == '/' {
        i := i + 1;
      }
    }
    assert i == len ==> input[i..] == "";
    TakePrefix(segs, Segs(input[i..]));
  }

  lemma TakeFacts(s: seq<string>)
    ensures Take(s) <= s && |Take(s)| == if |s| <= 8 then |s| else 8
  {
  }

  /** The end of the segment that starts at `start`. */
  method ScanSegment(input: string, start: nat) returns (i: nat)
    requires start <= |input|
    ensures start <= i <= |input| && (i < |input| ==> input[i] == '/')
    ensures forall k: nat | start <= k < i :: input[k] != '/'
  {
    i := start;
    while i < |input| && input[i] != '/'
      invariant start <= i <= |input| && forall k: nat | start <= k < i :: input[k] != '/'
    {
      i := i + 1;
    }
  }

  lemma ScanStep(input: string, start: nat, i: nat)
    requires start <= i <= |input| && (i < |input| ==> input[i] == '/')
    requires forall k: nat | start <= k < i :: input[k] != '/'
    ensures Segs(input[start..]) ==
            (if i > start then [input[start..i]] else []) + Segs(input[if i < |input| then i + 1 else i..])
  {
    SegsStep(input[start..], i - start);
    assert input[start..][..i - start] == input[start..i];
    assert input[start..][i - start..] == input[i..];
    if i < |input| {
      assert input[i..][1..] == input[i + 1..];
    }
  }

  lemma TakePrefix(a: seq<string>, b: seq<string>)
    requires |a| <= MAX_SEGMENTS && (|a| < MAX_SEGMENTS ==> b == [])
    ensures Take(a + b) == a
  {
    assert |a| == MAX_SEGMENTS ==> (a + b)[..MAX_SEGMENTS] == a;
    assert b == [] ==> a + b == a;
  }

  /** The segments of a string whose first `n` characters run up to a slash or the end. */
  lemma SegsStep(p: string, n: nat)
    requires n <= |p| && (n < |p| ==> p[n] == '/') && forall i: nat | i < n :: p[i] != '/'
    ensures Segs(p) == (if n > 0 then [p[..n]] else []) + Segs(p[n..])
  {
    if n > 0 {
      assert FirstSlash(p) == n;
    } else {
      assert p[0..] == p;
    }
  }

  lemma SegsWhole(s: string)
    requires CleanSeg(s)
    ensures Segs(s) == [s]
  {
    SegsStep(s, |s|);
    assert s[..|s|] == s && s[|s|..] == "";
  }

  // ---------------------------------------------------------------- normal form

  function Push(stack: seq<string>, seg: string): seq<string>
  {
    if seg == "." then stack
    else if seg == ".." then (if |stack| > 0 then stack[..|stack| - 1] else stack)
    else stack + [seg]
  }

  ghost predicate NoDots(segs: seq<string>) {
    forall i: nat | i < |segs| :: segs[i] != "." && segs[i] != ".."
  }

  /** The segments that remain after "." and ".." have been acted on. */
  function NormStack(segs: seq<string>): (stack: seq<string>)
    ensures |stack| <= |segs|
    ensures NoDots(stack)
    ensures Clean(segs) ==> Clean(stack)
  {
    if segs == [] then [] else Push(NormStack(segs[..|segs| - 1]), segs[|segs| - 1])
  }

  function Join(segs: seq<string>): string
  {
    if segs == [] then ""
    else if |segs| == 1 then segs[0]
    else Join(segs[..|segs| - 1]) + "/" + segs[|segs| - 1]
  }

  function Render(absolute: bool, stack: seq<string>): string
  {
    if absolute then "/" + Join(stack)
    else if stack == [] then "."
    else Join(stack)
  }

  /** The normal form of a path string. */
  function Normal(p: string): Option<string>
  {
    match Parsed(p)
    case None => None
    case Some(parts) => Some(Render(parts.absolute, NormStack(parts.segs)))
  }

  /** Acts on "." and ".." with a bounded stack, which never overflows. */
  method Reduce(segs: seq<string>) returns (stack: seq<string>)
    requires |segs| <= MAX_SEGMENTS
    ensures stack == NormStack(segs)
  {
    stack := [];
    for i := 0 to |segs|
      invariant stack == NormStack(segs[..i])
    {
      assert segs[..i + 1][..i] == segs[..i];
      if segs[i] == "." {
        continue;
      }
      if segs[i] == ".." {
        if |stack| > 0 {
          stack := stack[..|stack| - 1];
        }
        continue;
      }
      stack := stack + [segs[i]];
    }
    assert segs[..|segs|] == segs;
  }

  method CopyChars(dst: array<char>, pos: nat, src: string)
    requires pos + |src| < dst.Length
    modifies dst
    ensures dst[..pos + |src|] == old(dst[..pos]) + src && dst[pos + |src|] == '\0'
  {
    for i := 0 to |src|
      invariant dst[..pos + i] == old(dst[..pos]) + src[..i]
    {
      dst[pos + i] := src[i];
    }
    assert src[..|src|] == src;
    dst[pos + |src|] := '\0';
  }

  /** Writes the normal form and returns its length; fails exactly when the path does not
      parse or the normal form and its terminator do not fit. */
  method PathNormalize(input: string, out: array<char>, outSize: nat) returns (n: int)
    requires outSize <= out.Length
    modifies out
    ensures n >= 0 <==> outSize >= 2 && Normal(input).Some? && |Normal(input).value| < outSize
    ensures n >= 0 ==> n == |Normal(input).value| && out[..n] == Normal(input).value && out[n] == '\0'
    ensures n >= 0 ==> 0 < |input| < 128 && n > 0 && (out[0] == '/' <==> input[0] == '/')
    ensures n < 0 ==> n == -1
  {
    if outSize < 2 {
      return -1;
    }
    var parsed := PathParse(input);
    if parsed.None? {
      return -1;
    }
    var stack := Reduce(parsed.value.segs);
    n := WriteNormal(parsed.value.absolute, stack, out, outSize);
    NormalLeads(input);
    assert n >= 0 ==> out[..n][0] == out[0];
  }

  /** Writes a list of segments with its slashes, checking for room before each piece. */
  method WriteNormal(absolute: bool, stack: seq<string>, out: array<char>, outSize: nat) returns (n: int)
    requires 2 <= outSize <= out.Length && Clean(stack)
    modifies out
    ensures n >= 0 <==> |Render(absolute, stack)| < outSize
    ensures n >= 0 ==> n == |Render(absolute, stack)| && out[..n] == Render(absolute, stack) && out[n] == '\0'
    ensures n < 0 ==> n == -1
  {
    var pos: nat := 0;
    if absolute {
      out[0] := '/';
      pos := 1;
    }
    ghost var head := if absolute then "/" else "";
    var ok: bool;
    ok, pos := WriteSegments(head, stack, out, outSize, pos);
    if !ok {
      return -1;
    }
    if pos == 0 {
      EmptyJoin(stack);
      out[0] := '.';
      pos := 1;
    }
    assert out[..pos] == Render(absolute, stack) by {
      if stack != [] { JoinHead(stack); }
    }
    out[pos] := '\0';
    return pos;
  }

  method WriteSegments(ghost head: string, stack: seq<string>, out: array<char>, outSize: nat, start: nat) returns (ok: bool, pos: nat)
    requires start < outSize <= out.Length && out[..start] == head
    modifies out
    ensures ok <==> |head + Join(stack)| < outSize
    ensures ok ==> pos < outSize && out[..pos] == head + Join(stack)
  {
    pos := start;
    var i := 0;
    while i < |stack|
      invariant 0 <= i <= |stack| && pos < outSize
      invariant out[..pos] == head + Join(stack[..i])
    {
      JoinGrows(head, stack, i);
      ok, pos := AppendSegment(out, outSize, pos, i > 0, stack[i]);
      if !ok {
        return;
      }
      i := i + 1;
    }
    assert stack[..|stack|] == stack;
    ok := true;
  }

  function Piece(sep: bool, seg: string): string
  {
    (if sep then "/" else "") + seg
  }

  method AppendSegment(out: array<char>, outSize: nat, pos: nat, sep: bool, seg: string) returns (ok: bool, end: nat)
    requires pos < outSize <= out.Length
    modifies out
    ensures ok <==> pos + |Piece(sep, seg)| < outSize
    ensures ok ==> end == pos + |Piece(sep, seg)| && out[..end] == old(out[..pos]) + Piece(sep, seg)
  {
    end := pos;
    if sep {
      if end + 1 >= outSize {
        return false, end;
      }
      out[end] := '/';
      end := end + 1;
    }
    assert out[..end] == old(out[..pos]) + (if sep then "/" else "");
    if end + |seg| >= outSize {
      return false, end;
    }
    CopyChars(out, end, seg);
    end := end + |seg|;
    return true, end;
  }

  lemma JoinGrows(head: string, stack: seq<string>, i: nat)
    requires i < |stack|
    ensures head + Join(stack[..i + 1]) == head + Join(stack[..i]) + Piece(i > 0, stack[i])
    ensures |head + Join(stack[..i + 1])| <= |head + Join(stack)|
  {
    assert stack[..i + 1][..i] == stack[..i];
    assert Join(stack[..i + 1]) == Join(stack[..i]) + Piece(i > 0, stack[i]);
    JoinPrefix(stack, i + 1);
  }

  lemma {:induction false} JoinPrefix(stack: seq<string>, i: nat)
    requires i <= |stack|
    ensures |Join(stack[..i])| <= |Join(stack)|
  {
    if i < |stack| {
      if |stack| > 1 {
        assert stack[..|stack| - 1][..i] == stack[..i];
        JoinPrefix(stack[..|stack| - 1], i);
      }
    } else {
      assert stack[..i] == stack;
    }
  }

  lemma EmptyJoin(stack: seq<string>)
    requires Clean(stack) && Join(stack) == ""
    ensures stack == []
  {
    WeightJoin(stack);
    assert |stack| > 0 ==> CleanSeg(stack[|stack| - 1]);
  }

  // ---------------------------------------------------------------- normalising twice

  lemma {:induction false} SegsAppend(a: string, b: string)
    requires CleanSeg(b)
    ensures Segs(a + "/" + b) == Segs(a) + [b]
    decreases |a|
  {
    if a == "" {
      assert (a + "/" + b)[1..] == b;
      SegsWhole(b);
    } else if a[0] == '/' {
      assert (a + "/" + b)[1..] == a[1..] + "/" + b;
      SegsAppend(a[1..], b);
    } else {
      var n := FirstSlash(a);
      assert (a + "/" + b)[..n] == a[..n];
      assert (a + "/" + b)[n..] == a[n..] + "/" + b;
      SegsStep(a, n);
      SegsStep(a + "/" + b, n);
      SegsAppend(a[n..], b);
    }
  }

  /** A slash at the end adds no segment. With `SegsAppend` this says what the segments of
      every path are. */
  lemma {:induction false} SegsSlash(a: string)
    ensures Segs(a + "/") == Segs(a)
    decreases |a|
  {
    if a == "" {
      assert (a + "/")[1..] == "";
    } else if a[0] == '/' {
      assert (a + "/")[1..] == a[1..] + "/";
      SegsSlash(a[1..]);
    } else {
      var n := FirstSlash(a);
      assert (a + "/")[..n] == a[..n];
      assert (a + "/")[n..] == a[n..] + "/";
      SegsStep(a, n);
      SegsStep(a + "/", n);
      SegsSlash(a[n..]);
    }
  }

  /** Splitting a joined path gives the segments back. */
  lemma {:induction false} SegsJoin(stack: seq<string>)
    requires Clean(stack)
    ensures Segs(Join(stack)) == stack
  {
    if |stack| == 1 {
      SegsWhole(stack[0]);
    } else if |stack| > 1 {
      var front, last := stack[..|stack| - 1], stack[|stack| - 1];
      assert CleanSeg(last);
      SegsJoin(front);
      SegsAppend(Join(front), last);
      assert stack == front + [last];
    }
  }

  /** The characters of the segments and one separator for each. */
  function Weight(segs: seq<string>): nat
  {
    if segs == [] then 0 else Weight(segs[..|segs| - 1]) + |segs[|segs| - 1]| + 1
  }

  lemma {:induction false} WeightJoin(segs: seq<string>)
    ensures |Join(segs)| == if segs == [] then 0 else Weight(segs) - 1
  {
    if |segs| > 1 {
      WeightJoin(segs[..|segs| - 1]);
    } else if |segs| == 1 {
      assert Weight(segs[..0]) == 0;
    }
  }

  lemma {:induction false} WeightNorm(segs: seq<string>)
    ensures Weight(NormStack(segs)) <= Weight(segs)
  {
    if segs != [] {
      var before := NormStack(segs[..|segs| - 1]);
      WeightNorm(segs[..|segs| - 1]);
      assert (before + [segs[|segs| - 1]])[..|before|] == before;
    }
  }

  lemma {:induction false} WeightConcat(a: seq<string>, b: seq<string>)
    ensures Weight(a + b) == Weight(a) + Weight(b)
  {
    if b == [] {
      assert a + b == a;
    } else {
      WeightConcat(a, b[..|b| - 1]);
      assert (a + b)[..|a + b| - 1] == a + b[..|b| - 1];
    }
  }

  /** A path is at least as long as its segments and the slashes between them. */
  lemma {:induction false} WeightSegs(p: string)
    ensures Weight(Segs(p)) <= |p| + 1
    ensures p != "" && p[0] == '/' ==> Weight(Segs(p)) <= |p|
    decreases |p|
  {
    if p == "" {
    } else if p[0] == '/' {
      WeightSegs(p[1..]);
    } else {
      var n := FirstSlash(p);
      WeightSegs(p[n..]);
      SegsStep(p, n);
      WeightConcat([p[..n]], Segs(p[n..]));
      assert Weight([p[..n]]) == n + 1 by {
        assert [p[..n]][..0] == [];
      }
    }
  }

  lemma TakeWeight(segs: seq<string>)
    ensures Weight(Take(segs)) <= Weight(segs)
  {
    if |segs| > MAX_SEGMENTS {
      WeightConcat(segs[..MAX_SEGMENTS], segs[MAX_SEGMENTS..]);
      assert segs == segs[..MAX_SEGMENTS] + segs[MAX_SEGMENTS..];
    }
  }

  /** The normal form is never longer than the path. */
  lemma NormalNotLonger(p: string)
    requires Normal(p).Some?
    ensures 0 < |Normal(p).value| <= |p|
  {
    var parts := Parsed(p).value;
    var stack := NormStack(parts.segs);
    WeightSegs(p);
    TakeWeight(Segs(p));
    WeightNorm(parts.segs);
    WeightJoin(stack);
    if stack == [] {
    } else {
      assert CleanSeg(stack[|stack| - 1]);
    }
  }

  /** Segments without "." and ".." are their own normal form. */
  lemma {:induction false} NormFixed(stack: seq<string>)
    requires NoDots(stack)
    ensures NormStack(stack) == stack
  {
    if stack != [] {
      NormFixed(stack[..|stack| - 1]);
      assert stack == stack[..|stack| - 1] + [stack[|stack| - 1]];
    }
  }

  /** Parsing a normal form gives back the segments it was made of. */
  lemma ParsedNormal(p: string)
    requires Normal(p).Some?
    ensures var parts := Parsed(p).value;
            var stack := NormStack(parts.segs);
            Parsed(Normal(p).value) ==
            Some(Parts(if parts.absolute || stack != [] then stack else ["."], parts.absolute))
  {
    var parts := Parsed(p).value;
    var stack := NormStack(parts.segs);
    var r := Normal(p).value;
    NormalNotLonger(p);
    assert Clean(stack);
    SegsJoin(stack);
    if parts.absolute {
      assert r[1..] == Join(stack);
    } else if stack == [] {
      SegsWhole(".");
    } else {
      assert CleanSeg(stack[0]);
      JoinHead(stack);
    }
  }

  lemma {:induction false} JoinHead(stack: seq<string>)
    requires stack != [] && stack[0] != ""
    ensures Join(stack) != "" && Join(stack)[0] == stack[0][0]
  {
    if |stack| > 1 {
      JoinHead(stack[..|stack| - 1]);
    }
  }

  /** The normal form begins with a slash exactly when the path does. */
  lemma NormalLeads(p: string)
    requires 0 < |p| < 128
    ensures Normal(p).Some? && Normal(p).value != ""
    ensures Normal(p).value[0] == '/' <==> p[0] == '/'
  {
    var stack := NormStack(Parsed(p).value.segs);
    assert Clean(stack);
    if stack != [] {
      assert CleanSeg(stack[0]);
      JoinHead(stack);
    }
  }

  /** Normalising twice is normalising once. */
  lemma NormalIdempotent(p: string)
    requires Normal(p).Some?
    ensures Normal(Normal(p).value) == Normal(p)
  {
    ParsedNormal(p);
    var parts := Parsed(p).value;
    var stack := NormStack(parts.segs);
    NormFixed(stack);
    if !parts.absolute && stack == [] {
      assert ["."][..0] == [];
      assert NormStack(["."]) == [];
    }
  }
}
