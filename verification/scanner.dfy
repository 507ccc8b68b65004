/**
 The raw-text pass of the JSON decoder: a string-aware bracket counter
 that finds where each element of the top-level booking array starts and
 ends, and the newline count that turns a position into a line number.
 */
module Scanner {

  /** The inclusive character positions of one `{ ... }` element. */
  datatype Range = Range(start: nat, end: nat)

  /** The scanner's state after some prefix of the text. */
  datatype ScanState = ScanState(
    inString: bool,
    escape: bool,
    arrayDepth: nat,
    braceDepth: int,
    insideObject: bool,
    objectStart: nat,
    ranges: seq<Range>)

  const Initial := ScanState(false, false, 0, 0, false, 0, [])

  /** One iteration of the scanning loop, on character `ch` at position `i`. */
  function Step(st: ScanState, i: nat, ch: char): ScanState
  {
    if st.escape then st.(escape := false)
    else if ch == '\\' then (if st.inString then st.(escape := true) else st)
    else if ch == '"' then st.(inString := !st.inString)
    else if st.inString then st
    else if ch == '[' then st.(arrayDepth := st.arrayDepth + 1)
    else if ch == ']' then
      if st.arrayDepth == 0 then st
      else if st.arrayDepth == 1 then st.(arrayDepth := 0, braceDepth := 0, insideObject := false)
      else st.(arrayDepth := st.arrayDepth - 1)
    else if ch == '{' then
      if st.arrayDepth == 1 && !st.insideObject then st.(insideObject := true, braceDepth := 1, objectStart := i)
      else if st.insideObject then st.(braceDepth := st.braceDepth + 1)
      else st
    else if ch == '}' then
      if !st.insideObject then st
      else if st.braceDepth - 1 == 0 then
        st.(braceDepth := 0, insideObject := false, ranges := st.ranges + [Range(st.objectStart, i)])
      else st.(braceDepth := st.braceDepth - 1)
    else st
  }

  /** The state after scanning `s`, whose first character sits at position `i`, from `st`. */
  function ScanFrom(st: ScanState, i: nat, s: string): ScanState
    decreases |s|
  {
    if s == [] then st
    else Step(ScanFrom(st, i, s[..|s| - 1]), i + |s| - 1, s[|s| - 1])
  }

  /** The state after scanning a prefix of the document. */
  function Scan(prefix: string): ScanState
  {
    ScanFrom(Initial, 0, prefix)
  }

  /** Position `s` holds a `{` that the scanner meets outside strings, in the top-level array, outside any element. */
  predicate OpensAt(c: string, s: nat)
    requires s < |c|
  {
    var st := Scan(c[..s]);
    c[s] == '{' && !st.escape && !st.inString && st.arrayDepth == 1 && !st.insideObject
  }

  /** Position `e` holds the `}` that brings an open element's brace depth back to zero. */
  predicate ClosesAt(c: string, e: nat)
    requires e < |c|
  {
    var st := Scan(c[..e]);
    c[e] == '}' && !st.escape && !st.inString && st.insideObject && st.braceDepth == 1
  }

  /** The positions below `n` at which an element closes, in increasing order. */
  function Closings(c: string, n: nat): (es: seq<nat>)
    requires n <= |c|
    ensures forall k | 0 <= k < |es| :: es[k] < n
  {
    if n == 0 then []
    else if ClosesAt(c, n - 1) then Closings(c, n - 1) + [n - 1]
    else Closings(c, n - 1)
  }

  /**
   Ranges within the first `n` characters: ordered, disjoint, each from an
   opening `{` to a closing `}`, with no other opening `{` between the two,
   so that the start is the brace the end balances.
   */
  predicate RangesWithin(c: string, n: nat, rs: seq<Range>)
    requires n <= |c|
  {
    && (forall k | 0 <= k < |rs| ::
          rs[k].start < rs[k].end < n && OpensAt(c, rs[k].start) && ClosesAt(c, rs[k].end))
    && (forall k | 0 <= k < |rs| - 1 :: rs[k].end < rs[k + 1].start)
    && (forall k, j | 0 <= k < |rs| && rs[k].start < j < rs[k].end :: !OpensAt(c, j))
  }

  /** What the loop keeps true after `n` characters. */
  predicate Invariant(c: string, n: nat, st: ScanState)
    requires n <= |c|
  {
    && RangesWithin(c, n, st.ranges)
    && |st.ranges| == |Closings(c, n)|
    && (forall k | 0 <= k < |st.ranges| :: st.ranges[k].end == Closings(c, n)[k])
    && ObjectOpen(c, n, st)
  }

  /** An element that is still open began at an opening `{` after every range found so far. */
  predicate ObjectOpen(c: string, n: nat, st: ScanState)
    requires n <= |c|
  {
    st.insideObject ==>
      && st.braceDepth >= 1
      && st.objectStart < n
      && OpensAt(c, st.objectStart)
      && (|st.ranges| > 0 ==> st.ranges[|st.ranges| - 1].end < st.objectStart)
      && (forall j | st.objectStart < j < n :: !OpensAt(c, j))
  }

  lemma ScanSnoc(c: string, n: nat)
    requires 0 < n <= |c|
    ensures Scan(c[..n]) == Step(Scan(c[..n - 1]), n - 1, c[n - 1])
  {
    assert c[..n][..n - 1] == c[..n - 1];
  }

  lemma {:induction false} ScanInvariant(c: string, n: nat)
    requires n <= |c|
    ensures Invariant(c, n, Scan(c[..n]))
  {
    if n > 0 {
      ScanInvariant(c, n - 1);
      ScanSnoc(c, n);
      StepKeepsInvariant(c, n, Scan(c[..n - 1]));
    }
  }

  /** What one loop iteration does to the ranges and to the open element. */
  lemma StepEffect(st: ScanState, i: nat, ch: char)
    ensures var st' := Step(st, i, ch);
            var closes := !st.escape && ch == '}' && !st.inString && st.insideObject && st.braceDepth == 1;
            var opens := !st.escape && ch == '{' && !st.inString && st.arrayDepth == 1 && !st.insideObject;
            && (closes ==> st'.ranges == st.ranges + [Range(st.objectStart, i)] && !st'.insideObject)
            && (!closes ==> st'.ranges == st.ranges)
            && (opens ==> st'.insideObject && st'.objectStart == i && st'.braceDepth == 1)
            && (st'.insideObject && !opens ==>
                  st.insideObject && st'.objectStart == st.objectStart
                  && (st.braceDepth >= 1 ==> st'.braceDepth >= 1))
  {
  }

  lemma RangesWithinGrow(c: string, n: nat, rs: seq<Range>)
    requires 0 < n <= |c|
    requires RangesWithin(c, n - 1, rs)
    ensures RangesWithin(c, n, rs)
  {
  }

  lemma RangesWithinPush(c: string, n: nat, rs: seq<Range>, s: nat)
    requires 0 < n <= |c|
    requires RangesWithin(c, n - 1, rs)
    requires s < n - 1 && OpensAt(c, s) && ClosesAt(c, n - 1)
    requires |rs| > 0 ==> rs[|rs| - 1].end < s
    requires forall j | s < j < n - 1 :: !OpensAt(c, j)
    ensures RangesWithin(c, n, rs + [Range(s, n - 1)])
  {
    var rs' := rs + [Range(s, n - 1)];
    forall k | 0 <= k < |rs'|
      ensures rs'[k].start < rs'[k].end < n && OpensAt(c, rs'[k].start) && ClosesAt(c, rs'[k].end)
    {
      if k < |rs| {
        assert rs'[k] == rs[k];
      }
    }
    forall k | 0 <= k < |rs'| - 1
      ensures rs'[k].end < rs'[k + 1].start
    {
      assert rs'[k] == rs[k];
      if k + 1 < |rs| {
        assert rs'[k + 1] == rs[k + 1];
      }
    }
    PushedRangeHasNoInnerOpening(c, rs, Range(s, n - 1));
  }

  lemma PushedRangeHasNoInnerOpening(c: string, rs: seq<Range>, r: Range)
    requires forall k, j | 0 <= k < |rs| && rs[k].start < j < rs[k].end && j < |c| :: !OpensAt(c, j)
    requires forall j | r.start < j < r.end && j < |c| :: !OpensAt(c, j)
    ensures forall k, j | 0 <= k < |rs + [r]| && (rs + [r])[k].start < j < (rs + [r])[k].end && j < |c| ::
              !OpensAt(c, j)
  {
    var rs' := rs + [r];
    forall k, j | 0 <= k < |rs'| && rs'[k].start < j < rs'[k].end && j < |c|
      ensures !OpensAt(c, j)
    {
      if k < |rs| {
        assert rs'[k] == rs[k];
      }
    }
  }

  /** One loop iteration keeps the invariant. */
  lemma StepKeepsInvariant(c: string, n: nat, st: ScanState)
    requires 0 < n <= |c|
    requires st == Scan(c[..n - 1])
    requires Invariant(c, n - 1, st)
    ensures Invariant(c, n, Step(st, n - 1, c[n - 1]))
  {
    StepEffect(st, n - 1, c[n - 1]);
    if ClosesAt(c, n - 1) {
      ClosingStepKeepsInvariant(c, n, st);
    } else {
      OtherStepKeepsInvariant(c, n, st);
    }
  }

  lemma ClosingStepKeepsInvariant(c: string, n: nat, st: ScanState)
    requires 0 < n <= |c| && ClosesAt(c, n - 1)
    requires st == Scan(c[..n - 1])
    requires Invariant(c, n - 1, st)
    ensures Invariant(c, n, Step(st, n - 1, c[n - 1]))
  {
    StepEffect(st, n - 1, c[n - 1]);
    assert Closings(c, n) == Closings(c, n - 1) + [n - 1];
    RangesWithinPush(c, n, st.ranges, st.objectStart);
  }

  lemma OtherStepKeepsInvariant(c: string, n: nat, st: ScanState)
    requires 0 < n <= |c| && !ClosesAt(c, n - 1)
    requires st == Scan(c[..n - 1])
    requires Invariant(c, n - 1, st)
    ensures Invariant(c, n, Step(st, n - 1, c[n - 1]))
  {
    var st' := Step(st, n - 1, c[n - 1]);
    StepEffect(st, n - 1, c[n - 1]);
    assert st'.ranges == st.ranges;
    assert Closings(c, n) == Closings(c, n - 1);
    RangesWithinGrow(c, n, st.ranges);
    ObjectOpenKept(c, n, st);
  }

  lemma ObjectOpenKept(c: string, n: nat, st: ScanState)
    requires 0 < n <= |c| && !ClosesAt(c, n - 1)
    requires st == Scan(c[..n - 1]) && ObjectOpen(c, n - 1, st)
    requires |st.ranges| > 0 ==> st.ranges[|st.ranges| - 1].end < n - 1
    ensures ObjectOpen(c, n, Step(st, n - 1, c[n - 1]))
  {
    var st' := Step(st, n - 1, c[n - 1]);
    StepEffect(st, n - 1, c[n - 1]);
    if st'.insideObject && !st.insideObject {
      assert OpensAt(c, n - 1);
    } else if st'.insideObject {
      assert !OpensAt(c, n - 1);
    }
  }

  /**
   `extractTopLevelArrayObjects`: the element ranges of the top-level
   array, in text order. Each one opens at a `{` outside every string, at
   array depth one, and ends at the `}` that balances it; every such
   closing position ends exactly one range.
   */
  function ExtractTopLevelArrayObjects(content: string): (ranges: seq<Range>)
    ensures RangesWithin(content, |content|, ranges)
    ensures |ranges| == |Closings(content, |content|)|
    ensures forall k | 0 <= k < |ranges| :: ranges[k].end == Closings(content, |content|)[k]
  {
    ScanInvariant(content, |content|);
    assert content[..|content|] == content;
    Scan(content).ranges
  }

  // ------------------------------------------------------- string literals

  /** The characters between two quotes of a JSON string: no bare quote, and every backslash escapes one character. */
  predicate StringBody(s: string)
    decreases |s|
  {
    || s == []
    || (s[0] == '\\' && |s| >= 2 && StringBody(s[2..]))
    || (s[0] != '\\' && s[0] != '"' && StringBody(s[1..]))
  }

  /** A loop body over the characters: the state, the position, the character. */
  type StepFn = (ScanState, nat, char) -> ScanState

  /** Any loop over the characters of `s`, the first at position `i`, running `step` on each in order. */
  function Run(step: StepFn, st: ScanState, i: nat, s: string): ScanState
    decreases |s|
  {
    if s == [] then st
    else step(Run(step, st, i, s[..|s| - 1]), i + |s| - 1, s[|s| - 1])
  }

  /** The scanner is that loop with `Step` as its body. */
  lemma {:induction false} ScanFromIsRun(st: ScanState, i: nat, s: string)
    ensures ScanFrom(st, i, s) == Run(Step, st, i, s)
    decreases |s|
  {
    if s != [] {
      ScanFromIsRun(st, i, s[..|s| - 1]);
    }
  }

  /** Running a loop over `a + b` is running it over `a`, then over `b` from where it stopped. */
  lemma {:induction false} RunAppend(step: StepFn, st: ScanState, i: nat, a: string, b: string)
    ensures Run(step, st, i, a + b) == Run(step, Run(step, st, i, a), i + |a|, b)
    decreases |b|
  {
    if b == [] {
      assert a + b == a;
    } else {
      var b' := b[..|b| - 1];
      assert (a + b)[..|a + b| - 1] == a + b';
      RunAppend(step, st, i, a, b');
    }
  }

  /**
   In state `st` the loop body ignores every character but a backslash or
   a quote; a backslash takes it to `esc`, and from `esc` any character
   brings it back to `st`.
   */
  ghost predicate SkipsStringBody(step: StepFn, st: ScanState, esc: ScanState)
  {
    && (forall j: nat, ch: char | ch != '\\' && ch != '"' :: step(st, j, ch) == st)
    && (forall j: nat :: step(st, j, '\\') == esc)
    && (forall j: nat, ch: char :: step(esc, j, ch) == st)
  }

  lemma RunOne(step: StepFn, st: ScanState, i: nat, ch: char)
    ensures Run(step, st, i, [ch]) == step(st, i, ch)
  {
    assert [ch][..0] == [];
  }

  lemma RunTwo(step: StepFn, st: ScanState, i: nat, c0: char, c1: char)
    ensures Run(step, st, i, [c0, c1]) == step(step(st, i, c0), i + 1, c1)
  {
    assert [c0, c1][..1] == [c0];
    RunOne(step, st, i, c0);
  }

  /** A loop body that skips string bodies in `st` runs over one and is back at `st`. */
  lemma {:induction false} RunOverStringBody(step: StepFn, st: ScanState, esc: ScanState, i: nat, body: string)
    requires SkipsStringBody(step, st, esc)
    requires StringBody(body)
    ensures Run(step, st, i, body) == st
    decreases |body|
  {
    if body != [] {
      var k := if body[0] == '\\' then 2 else 1;
      assert body == body[..k] + body[k..];
      RunAppend(step, st, i, body[..k], body[k..]);
      if k == 2 {
        assert body[..k] == [body[0], body[1]];
        RunTwo(step, st, i, body[0], body[1]);
      } else {
        assert body[..k] == [body[0]];
        RunOne(step, st, i, body[0]);
      }
      RunOverStringBody(step, st, esc, i + k, body[k..]);
    }
  }

  /** A quote takes such a loop from `st` to `open`, the body keeps it there, and the closing quote takes it back. */
  lemma RunOverQuoted(step: StepFn, st: ScanState, open: ScanState, esc: ScanState, i: nat, body: string)
    requires step(st, i, '"') == open
    requires step(open, i + 1 + |body|, '"') == st
    requires SkipsStringBody(step, open, esc)
    requires StringBody(body)
    ensures Run(step, st, i, ['"'] + body + ['"']) == st
  {
    RunOne(step, st, i, '"');
    RunAppend(step, st, i, ['"'], body);
    RunOverStringBody(step, open, esc, i + 1, body);
    RunAppend(step, st, i, ['"'] + body, ['"']);
    RunOne(step, open, i + 1 + |body|, '"');
  }

  lemma StepSkipsStringBody(st: ScanState)
    requires st.inString && !st.escape
    ensures SkipsStringBody(Step, st, st.(escape := true))
  {
  }

  /** Inside a string, a string body leaves the scanner exactly as it was. */
  lemma StringBodyIsInert(st: ScanState, i: nat, body: string)
    requires st.inString && !st.escape
    requires StringBody(body)
    ensures ScanFrom(st, i, body) == st
  {
    StepSkipsStringBody(st);
    RunOverStringBody(Step, st, st.(escape := true), i, body);
    ScanFromIsRun(st, i, body);
  }

  /**
   A quoted string met outside any string, whatever brackets, braces or
   escaped quotes it holds, changes no part of the scanner's state: it
   neither opens nor closes an element range.
   */
  lemma QuotedStringIsInert(st: ScanState, i: nat, body: string)
    requires !st.inString && !st.escape
    requires StringBody(body)
    ensures ScanFrom(st, i, ['"'] + body + ['"']) == st
  {
    var open := st.(inString := true);
    StepSkipsStringBody(open);
    assert Step(st, i, '"') == open;
    assert Step(open, i + 1 + |body|, '"') == st;
    RunOverQuoted(Step, st, open, open.(escape := true), i, body);
    ScanFromIsRun(st, i, ['"'] + body + ['"']);
  }

  /** Outside a string a backslash is skipped and escapes nothing. */
  lemma BackslashOutsideStringIsSkipped(st: ScanState, i: nat)
    requires !st.inString && !st.escape
    ensures Step(st, i, '\\') == st
  {
  }

  // ---------------------------------------------------------- line numbers

  function Min(a: nat, b: nat): nat
  {
    if a <= b then a else b
  }

  /** Newlines in `s`, counted front to back as the loop does. */
  function CountNewlines(s: string): nat
  {
    if s == [] then 0
    else CountNewlines(s[..|s| - 1]) + (if s[|s| - 1] == '\n' then 1 else 0)
  }

  lemma {:induction false} CountNewlinesIsMultiplicity(s: string)
    ensures CountNewlines(s) == multiset(s)['\n']
  {
    if s != [] {
      var p := s[..|s| - 1];
      assert s == p + [s[|s| - 1]];
      CountNewlinesIsMultiplicity(p);
    }
  }

  /**
   `computeLineNumber`: one more than the number of newlines before
   `position`, or before the end of the text when `position` lies beyond it.
   */
  function ComputeLineNumber(content: string, position: nat): (line: nat)
    ensures line >= 1
    ensures line == 1 + multiset(content[..Min(position, |content|)])['\n']
  {
    CountNewlinesIsMultiplicity(content[..Min(position, |content|)]);
    1 + CountNewlines(content[..Min(position, |content|)])
  }

  /** Later positions never lie on earlier lines. */
  lemma LineNumberMonotone(content: string, p: nat, q: nat)
    requires p <= q
    ensures ComputeLineNumber(content, p) <= ComputeLineNumber(content, q)
  {
    var a, b := Min(p, |content|), Min(q, |content|);
    assert content[..b] == content[..a] + content[a..b];
  }

  /** Stepping over one character moves to the next line exactly when it is a newline. */
  lemma LineNumberStep(content: string, p: nat)
    requires p < |content|
    ensures ComputeLineNumber(content, p + 1)
            == ComputeLineNumber(content, p) + (if content[p] == '\n' then 1 else 0)
  {
    assert content[..p + 1] == content[..p] + [content[p]];
  }
}
