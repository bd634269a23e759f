/** The records the locator produces, the tag-name pattern `<(\w+)` and the
    self-closing classification (extension.js, `isSelfClosingTag` and the
    checks in `findTagAtPosition`). */
module Tags {
  import opened Text

  /** A half-open character range `[startChar, endChar)` on one line. */
  datatype TagSpan = TagSpan(line: nat, startChar: nat, endChar: nat)

  /** The located element: its name, its opening delimiter and, unless it is
      self-closing, the closing delimiter that balances it. */
  datatype TagInfo = TagInfo(tagName: string, openTag: TagSpan, closeTag: Option<TagSpan>, isSelfClosing: bool)

  /** The void elements, which never have a closing delimiter. */
  const VoidElements: seq<string> :=
    ["area", "base", "br", "col", "embed", "hr", "img", "input",
     "link", "meta", "param", "source", "track", "wbr"]

  /** `isSelfClosingTag`: membership of the lower-cased name in the void set. */
  predicate IsVoidElement(tagName: string) {
    Lower(tagName) in VoidElements
  }

  /** What `<(\w+)` can capture: a non-empty run of word characters. */
  predicate IsTagName(name: string) {
    |name| > 0 && forall i :: 0 <= i < |name| ==> IsWordChar(name[i])
  }

  /** The pattern `<\w` starts at index `j` of `s`. */
  predicate NameAt(s: string, j: nat) {
    j + 1 < |s| && s[j] == '<' && IsWordChar(s[j + 1])
  }

  /** `<(\w+)` matches `s` at `k` and captures `name`: `k` is the leftmost
      index where `<\w` starts, and `name` is the whole run of word
      characters after the `<`, ended by a non-word character or by the end
      of `s`. */
  predicate CapturedAt(s: string, k: nat, name: string) {
    && NameAt(s, k)
    && (forall j :: 0 <= j < k ==> !NameAt(s, j))
    && k + 1 + |name| <= |s|
    && s[k + 1..k + 1 + |name|] == name
    && (forall i :: 0 <= i < |name| ==> IsWordChar(name[i]))
    && (k + 1 + |name| == |s| || !IsWordChar(s[k + 1 + |name|]))
  }

  /** The leftmost index at or after `k` where `<\w` starts. */
  function NameStart(s: string, k: nat): (r: Option<nat>)
    decreases |s| - k
    ensures r.Some? ==> k <= r.value && NameAt(s, r.value)
    ensures r.Some? ==> forall j :: k <= j < r.value ==> !NameAt(s, j)
    ensures r.None? ==> forall j :: k <= j < |s| ==> !NameAt(s, j)
  {
    if k + 1 >= |s| then None
    else if NameAt(s, k) then Some(k)
    else NameStart(s, k + 1)
  }

  /** The maximal run of word characters starting at index `i` of `s`. */
  function WordRun(s: string, i: nat): (r: string)
    requires i <= |s|
    decreases |s| - i
    ensures i + |r| <= |s| && r == s[i..i + |r|]
    ensures forall j :: 0 <= j < |r| ==> IsWordChar(r[j])
    ensures i + |r| == |s| || !IsWordChar(s[i + |r|])
  {
    if i < |s| && IsWordChar(s[i]) then [s[i]] + WordRun(s, i + 1) else []
  }

  /** `s.match(/<(\w+)/)[1]`: the word run after the leftmost `<\w`, or None
      when `s` contains no `<` followed by a word character. */
  function TagNameIn(s: string): (r: Option<string>)
    ensures r.None? <==> forall j :: 0 <= j < |s| ==> !NameAt(s, j)
    ensures r.Some? ==> IsTagName(r.value)
  {
    match NameStart(s, 0)
    case None => None
    case Some(k) => Some(WordRun(s, k + 1))
  }

  /** `TagNameIn` answers `name` exactly when `<(\w+)` captures `name` at
      its leftmost match. */
  lemma TagNameCapture(s: string, name: string)
    ensures TagNameIn(s) == Some(name) <==> exists k :: CapturedAt(s, k, name)
  {
    if TagNameIn(s) == Some(name) {
      var k := NameStart(s, 0).value;
      assert CapturedAt(s, k, name);
    }
    if k :| CapturedAt(s, k, name) {
      CaptureIsTagName(s, k, name);
    }
  }

  /** Conversely, whatever `<(\w+)` captures at its leftmost match is the
      name `TagNameIn` answers. */
  lemma CaptureIsTagName(s: string, k: nat, name: string)
    requires CapturedAt(s, k, name)
    ensures TagNameIn(s) == Some(name)
  {
    assert NameStart(s, 0) == Some(k);
    WordRunUnique(s, k + 1, name);
  }

  /** The word run at `i` is the only run of word characters there that is
      followed by a non-word character or the end of `s`. */
  lemma WordRunUnique(s: string, i: nat, w: string)
    requires i + |w| <= |s| && s[i..i + |w|] == w
    requires forall j :: 0 <= j < |w| ==> IsWordChar(w[j])
    requires i + |w| == |s| || !IsWordChar(s[i + |w|])
    ensures WordRun(s, i) == w
  {
    var r := WordRun(s, i);
    if |r| < |w| {
      assert false;
    } else if |r| > |w| {
      assert false;
    }
  }

  /** A delimiter that starts with `<` directly followed by the name `name`,
      and then by a non-word character or nothing, captures `name`. */
  lemma NameAfterBracket(s: string, name: string)
    requires IsTagName(name) && 1 + |name| <= |s|
    requires s[0] == '<' && s[1..1 + |name|] == name
    requires 1 + |name| == |s| || !IsWordChar(s[1 + |name|])
    ensures TagNameIn(s) == Some(name)
  {
    assert NameAt(s, 0) by { assert s[1] == s[1..1 + |name|][0]; }
    CaptureIsTagName(s, 0, name);
  }

  /** `s.includes('/>')`. */
  predicate HasSelfCloseMarker(s: string) {
    exists i :: 0 <= i < |s| - 1 && s[i] == '/' && s[i + 1] == '>'
  }

  /** The self-closing test of `findTagAtPosition` on the opening delimiter
      text `openTag` and its captured name. */
  predicate SelfClosing(openTag: string, tagName: string) {
    HasSelfCloseMarker(openTag) || IsVoidElement(tagName)
  }

  /** Lower-casing to an already lower-case string is exactly a
      case-insensitive comparison with it. */
  lemma LowerMatchesIgnoringCase(a: string, b: string)
    requires Lower(b) == b
    ensures Lower(a) == b <==> EqualIgnoringCase(a, b)
  {
    if EqualIgnoringCase(a, b) {
      forall i | 0 <= i < |a| ensures Lower(a)[i] == b[i] {
        assert Lower(b)[i] == b[i];
      }
    }
    if Lower(a) == b {
      forall i | 0 <= i < |a| ensures LowerChar(a[i]) == LowerChar(b[i]) {
        assert Lower(b)[i] == b[i];
      }
    }
  }

  /** Every listed void element is written in lower case. */
  lemma VoidElementsAreLowerCase(v: string)
    requires v in VoidElements
    ensures Lower(v) == v
  {
    forall i | 0 <= i < |v| ensures LowerChar(v[i]) == v[i] {
      assert 'a' <= v[i] <= 'z';
    }
  }

  /** The void-element test is case-insensitive: it holds exactly when the
      name equals one of the 14 listed names up to the case of ASCII letters. */
  lemma VoidElementIgnoresCase(tagName: string)
    ensures IsVoidElement(tagName) <==> exists v :: v in VoidElements && EqualIgnoringCase(tagName, v)
  {
    forall v | v in VoidElements
      ensures Lower(tagName) == v <==> EqualIgnoringCase(tagName, v)
    {
      VoidElementsAreLowerCase(v);
      LowerMatchesIgnoringCase(tagName, v);
    }
  }

  /** In an opening delimiter whose only `>` is its last character, the text
      contains `/>` exactly when the character before that `>` is `/`. */
  lemma SelfCloseMarkerIsAtEnd(s: string)
    requires |s| >= 1 && s[|s| - 1] == '>'
    requires forall j :: 0 <= j < |s| - 1 ==> s[j] != '>'
    ensures HasSelfCloseMarker(s) <==> |s| >= 2 && s[|s| - 2] == '/'
  {
    if HasSelfCloseMarker(s) {
      var i :| 0 <= i < |s| - 1 && s[i] == '/' && s[i + 1] == '>';
      assert i + 1 == |s| - 1;
    }
    if |s| >= 2 && s[|s| - 2] == '/' {
      assert s[|s| - 2] == '/' && s[|s| - 2 + 1] == '>';
    }
  }
}
