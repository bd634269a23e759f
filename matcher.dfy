/** The closing-tag matcher (extension.js, `findClosingTag`): a forward scan
    over the document that counts same-named openers and closers and stops at
    the closer that brings the count to zero. */
module Matcher {
  import opened Text
  import opened Tags

  /** `^<name(?:\s|>)` matches `text` from index `i`. */
  predicate IsOpenerAt(text: string, i: nat, name: string) {
    var k := i + 1 + |name|;
    k < |text| && text[i] == '<' && text[i + 1..k] == name && (IsSpace(text[k]) || text[k] == '>')
  }

  /** `^</name>` matches `text` from index `i`. */
  predicate IsCloserAt(text: string, i: nat, name: string) {
    var k := i + 2 + |name|;
    k < |text| && text[i] == '<' && text[i + 1] == '/' && text[i + 2..k] == name && text[k] == '>'
  }

  /** `text.substring(i).startsWith('</')`. */
  predicate StartsClosing(text: string, i: nat) {
    i + 1 < |text| && text[i] == '<' && text[i + 1] == '/'
  }

  /** The change the scan makes to the depth at column `i`: +1 at an opener,
      -1 at a closer, 0 elsewhere (the opener test is made first). */
  function Delta(text: string, i: nat, name: string): int {
    if i < |text| && text[i] == '<' then
      if IsOpenerAt(text, i, name) && !StartsClosing(text, i) then 1
      else if IsCloserAt(text, i, name) then -1
      else 0
    else 0
  }

  /** The sum of `Delta` over the columns `[lo, hi)` of one line; 0 when the
      range is empty. */
  function Net(text: string, lo: nat, hi: nat, name: string): int
    decreases hi
  {
    if hi <= lo then 0 else Net(text, lo, hi - 1, name) + Delta(text, hi - 1, name)
  }

  /** The column at which the scan starts on `line`: `startChar` on the start
      line, 0 on every later line. */
  function Lead(startLine: nat, startChar: nat, line: nat): nat {
    if line == startLine then startChar else 0
  }

  /** The depth when the scan reaches the beginning of `line`: 1 plus the net
      count of every line scanned before it. */
  function Carry(doc: Document, startLine: nat, startChar: nat, name: string, line: nat): int
    requires startLine <= line <= |doc|
    decreases line - startLine
  {
    if line == startLine then 1
    else Carry(doc, startLine, startChar, name, line - 1)
         + Net(doc[line - 1], Lead(startLine, startChar, line - 1), |doc[line - 1]|, name)
  }

  /** The depth just before the scan examines column `col` of `line`. */
  function Depth(doc: Document, startLine: nat, startChar: nat, name: string, line: nat, col: nat): int
    requires startLine <= line < |doc|
  {
    Carry(doc, startLine, startChar, name, line) + Net(doc[line], Lead(startLine, startChar, line), col, name)
  }

  /** `sp` is the answer of the matcher started at `(startLine, startChar)`:
      a `</name>` at or after the start, whose 1-depth is consumed by it, and
      the depth stayed positive at every scanned point up to it. */
  predicate IsMatchingCloser(doc: Document, startLine: nat, startChar: nat, name: string, sp: TagSpan) {
    startLine <= sp.line < |doc| &&
    Lead(startLine, startChar, sp.line) <= sp.startChar &&
    IsCloserAt(doc[sp.line], sp.startChar, name) &&
    sp.endChar == sp.startChar + |name| + 3 &&
    (forall l, i :: startLine <= l < sp.line && Lead(startLine, startChar, l) <= i <= |doc[l]| ==>
       Depth(doc, startLine, startChar, name, l, i) > 0) &&
    (forall i :: Lead(startLine, startChar, sp.line) <= i <= sp.startChar ==>
       Depth(doc, startLine, startChar, name, sp.line, i) > 0) &&
    Depth(doc, startLine, startChar, name, sp.line, sp.startChar + 1) == 0
  }

  /** The depth stays positive through the whole rest of the document. */
  predicate NoMatchingCloser(doc: Document, startLine: nat, startChar: nat, name: string) {
    forall l, i :: startLine <= l < |doc| && Lead(startLine, startChar, l) <= i <= |doc[l]| ==>
      Depth(doc, startLine, startChar, name, l, i) > 0
  }

  /** Examining column `col` changes the depth by `Delta` at that column. */
  lemma DepthStep(doc: Document, startLine: nat, startChar: nat, name: string, line: nat, col: nat)
    requires startLine <= line < |doc| && Lead(startLine, startChar, line) <= col
    ensures Depth(doc, startLine, startChar, name, line, col + 1)
         == Depth(doc, startLine, startChar, name, line, col) + Delta(doc[line], col, name)
  {
  }

  /** The depth at the start of the next line is the depth at the end of
      this one (or at its lead column, when that lies past the end). */
  lemma CarryNext(doc: Document, startLine: nat, startChar: nat, name: string, line: nat, col: nat)
    requires startLine <= line < |doc|
    requires col == |doc[line]| >= Lead(startLine, startChar, line) || col == Lead(startLine, startChar, line) >= |doc[line]|
    ensures Carry(doc, startLine, startChar, name, line + 1) == Depth(doc, startLine, startChar, name, line, col)
  {
    var lead := Lead(startLine, startChar, line);
    if col != |doc[line]| {
      assert Net(doc[line], lead, |doc[line]|, name) == 0 == Net(doc[line], lead, col, name);
    }
  }

  /** `findClosingTag(document, startLine, startChar, tagName)`. */
  method FindClosingTag(doc: Document, startLine: nat, startChar: nat, name: string) returns (r: Option<TagSpan>)
    requires IsTagName(name)
    ensures r.Some? ==> IsMatchingCloser(doc, startLine, startChar, name, r.value)
    ensures r.None? ==> NoMatchingCloser(doc, startLine, startChar, name)
  {
    var depth := 1;
    var currentLine := startLine;
    var currentChar := startChar;
    while currentLine < |doc|
      invariant startLine <= currentLine && (currentLine <= |doc| || currentLine == startLine)
      invariant currentChar == Lead(startLine, startChar, currentLine)
      invariant currentLine <= |doc| ==> depth == Carry(doc, startLine, startChar, name, currentLine)
      invariant forall l, i :: startLine <= l < currentLine && l < |doc| && Lead(startLine, startChar, l) <= i <= |doc[l]| ==>
                  Depth(doc, startLine, startChar, name, l, i) > 0
      decreases |doc| - currentLine
    {
      var text := doc[currentLine];
      var i := currentChar;
      while i < |text|
        invariant currentChar <= i && (i <= |text| || i == currentChar)
        invariant depth == Depth(doc, startLine, startChar, name, currentLine, i)
        invariant forall k :: currentChar <= k <= i ==> Depth(doc, startLine, startChar, name, currentLine, k) > 0
      {
        DepthStep(doc, startLine, startChar, name, currentLine, i);
        if text[i] == '<' {
          if IsOpenerAt(text, i, name) && !StartsClosing(text, i) {
            depth := depth + 1;
          } else if IsCloserAt(text, i, name) {
            depth := depth - 1;
            if depth == 0 {
              return Some(TagSpan(currentLine, i, i + |name| + 3));
            }
          }
        }
        i := i + 1;
      }
      CarryNext(doc, startLine, startChar, name, currentLine, i);
      currentLine := currentLine + 1;
      currentChar := 0;
    }
    return None;
  }

  /** A matched closer lies at or after the start point and covers exactly the
      text `</name>` on its line. */
  lemma CloserSpanText(doc: Document, startLine: nat, startChar: nat, name: string, sp: TagSpan)
    requires IsMatchingCloser(doc, startLine, startChar, name, sp)
    ensures sp.line > startLine || (sp.line == startLine && sp.startChar >= startChar)
    ensures sp.startChar < sp.endChar <= |doc[sp.line]|
    ensures doc[sp.line][sp.startChar..sp.endChar] == "</" + name + ">"
    ensures sp.endChar - sp.startChar == |name| + 3
  {
    CloserText(doc[sp.line], sp.startChar, name);
  }

  /** A closer at column `i` is the text `</name>`. */
  lemma CloserText(text: string, i: nat, name: string)
    requires IsCloserAt(text, i, name)
    ensures text[i..i + |name| + 3] == "</" + name + ">"
  {
    var c := "</" + name + ">";
    forall j | 0 <= j < |c| ensures text[i + j] == c[j] {
      if 2 <= j < 2 + |name| {
        assert text[i + j] == text[i + 2..i + 2 + |name|][j - 2];
      }
    }
  }

  /** The matcher's answer is unique: two spans that both satisfy
      `IsMatchingCloser` from the same start are the same span, because the
      earlier one drops the depth to 0 where the later one needs it positive. */
  lemma MatchingCloserUnique(doc: Document, startLine: nat, startChar: nat, name: string, a: TagSpan, b: TagSpan)
    requires IsMatchingCloser(doc, startLine, startChar, name, a)
    requires IsMatchingCloser(doc, startLine, startChar, name, b)
    ensures a == b
  {
    if a.line < b.line || (a.line == b.line && a.startChar < b.startChar) {
      assert false;
    } else if b.line < a.line || (a.line == b.line && b.startChar < a.startChar) {
      assert false;
    }
  }

  /** "Found" and "not found" exclude each other: a matched closer is a
      scanned point where the depth is 0. */
  lemma MatchExcludesNoCloser(doc: Document, startLine: nat, startChar: nat, name: string, sp: TagSpan)
    requires IsMatchingCloser(doc, startLine, startChar, name, sp)
    ensures !NoMatchingCloser(doc, startLine, startChar, name)
  {
    assert sp.startChar + 1 <= |doc[sp.line]|;
  }

  /** The columns of `[lo, hi)` that satisfy `p`. */
  function Columns(lo: nat, hi: nat, p: nat -> bool): set<nat> {
    set i: nat | lo <= i < hi && p(i)
  }

  /** The test "a `<name` opener starts here", as a column predicate. */
  function OpenerTest(text: string, name: string): nat -> bool {
    (i: nat) => IsOpenerAt(text, i, name)
  }

  /** The test "a `</name>` closer starts here", as a column predicate. */
  function CloserTest(text: string, name: string): nat -> bool {
    (i: nat) => IsCloserAt(text, i, name)
  }

  /** The columns of `[lo, hi)` where a `<name` opener starts. */
  function Openers(text: string, lo: nat, hi: nat, name: string): set<nat> {
    Columns(lo, hi, OpenerTest(text, name))
  }

  /** The columns of `[lo, hi)` where a `</name>` closer starts. */
  function Closers(text: string, lo: nat, hi: nat, name: string): set<nat> {
    Columns(lo, hi, CloserTest(text, name))
  }

  /** For a tag name, no column starts both an opener and a closer, and an
      opener never starts with `</`. */
  lemma OpenerNotCloser(text: string, i: nat, name: string)
    requires IsTagName(name)
    ensures IsOpenerAt(text, i, name) ==> !StartsClosing(text, i) && !IsCloserAt(text, i, name)
  {
    if IsOpenerAt(text, i, name) {
      assert text[i + 1] == text[i + 1..i + 1 + |name|][0] == name[0];
    }
  }

  /** The depth rule stated as counts: over a range of columns the scan adds
      the number of `<name` openers and subtracts the number of `</name>`
      closers. */
  lemma {:induction false} NetCountsOpenersAndClosers(text: string, lo: nat, hi: nat, name: string)
    requires IsTagName(name)
    ensures Net(text, lo, hi, name) == |Openers(text, lo, hi, name)| - |Closers(text, lo, hi, name)|
    decreases hi
  {
    var op, cl := OpenerTest(text, name), CloserTest(text, name);
    if hi <= lo {
      ColumnsEmpty(lo, hi, op);
      ColumnsEmpty(lo, hi, cl);
    } else {
      var k := hi - 1;
      NetCountsOpenersAndClosers(text, lo, k, name);
      DeltaCounts(text, k, name);
      ColumnsStep(lo, k, op);
      ColumnsStep(lo, k, cl);
      assert op(k) == IsOpenerAt(text, k, name);
      assert cl(k) == IsCloserAt(text, k, name);
      assert Net(text, lo, hi, name) == Net(text, lo, k, name) + Delta(text, k, name);
    }
  }

  /** For a tag name, `Delta` is +1 exactly at an opener and -1 exactly at a
      closer. */
  lemma DeltaCounts(text: string, k: nat, name: string)
    requires IsTagName(name)
    ensures Delta(text, k, name) == (if IsOpenerAt(text, k, name) then 1 else 0) - (if IsCloserAt(text, k, name) then 1 else 0)
  {
    OpenerNotCloser(text, k, name);
  }

  /** An empty range has no columns. */
  lemma ColumnsEmpty(lo: nat, hi: nat, p: nat -> bool)
    requires hi <= lo
    ensures Columns(lo, hi, p) == {}
  {
    assert forall i :: i !in Columns(lo, hi, p);
  }

  /** Extending the range by one column adds that column to the count
      exactly when it satisfies the test. */
  lemma ColumnsStep(lo: nat, k: nat, p: nat -> bool)
    requires lo <= k
    ensures |Columns(lo, k + 1, p)| == |Columns(lo, k, p)| + if p(k) then 1 else 0
  {
    var c, c' := Columns(lo, k, p), Columns(lo, k + 1, p);
    assert k !in c;
    if p(k) {
      assert c' == c + {k};
    } else {
      assert c' == c;
    }
  }

  /** Columns without `<` leave the depth unchanged. */
  lemma {:induction false} NetFlat(text: string, lo: nat, a: nat, b: nat, name: string)
    requires lo <= a <= b
    requires forall j :: a <= j < b && j < |text| ==> text[j] != '<'
    ensures Net(text, lo, b, name) == Net(text, lo, a, name)
    decreases b
  {
    if a < b {
      NetFlat(text, lo, a, b - 1, name);
    }
  }
}
