/** The opening-tag locator (extension.js, `findTagAtPosition`): from the
    cursor it finds the nearest opening `<` to the left, the first `>` after
    it, the tag name, the self-closing classification and, for an element
    that is not self-closing, the balancing closer. */
module Locator {
  import opened Text
  import opened Tags
  import opened Matcher

  /** The cursor: a line index and a column on that line. */
  datatype Position = Position(line: nat, character: nat)

  /** Column `i` holds a `<` that does not directly follow a `/`. */
  predicate IsOpenBracket(text: string, i: nat) {
    i < |text| && text[i] == '<' && (i == 0 || text[i - 1] != '/')
  }

  /** `s` is the nearest such `<` at or before the cursor column `c`. */
  predicate IsNearestOpen(text: string, c: nat, s: nat) {
    s <= c && IsOpenBracket(text, s) && forall j :: s < j <= c ==> !IsOpenBracket(text, j)
  }

  /** No such `<` at or before the cursor column `c`. */
  predicate NoOpenAtOrBefore(text: string, c: nat) {
    forall j :: 0 <= j <= c ==> !IsOpenBracket(text, j)
  }

  /** `e` is the first `>` at or after column `s`. */
  predicate IsFirstGt(text: string, s: nat, e: nat) {
    s <= e < |text| && text[e] == '>' && forall j :: s <= j < e ==> text[j] != '>'
  }

  /** No `>` at or after column `s`. */
  predicate NoGtFrom(text: string, s: nat) {
    forall j :: s <= j < |text| ==> text[j] != '>'
  }

  /** What happens after the delimiter `openTag` has been cut out and the
      matcher would start at column `after` of `line`: no tag name, or a tag
      that is not self-closing and has no balancing closer. */
  ghost predicate Unresolvable(doc: Document, line: nat, openTag: string, after: nat) {
    match TagNameIn(openTag)
    case None => true
    case Some(name) => !SelfClosing(openTag, name) && NoMatchingCloser(doc, line, after, name)
  }

  /** `t` is what `findTagAtPosition` returns for the cursor `pos`. */
  ghost predicate IsLocated(doc: Document, pos: Position, t: TagInfo)
    requires pos.line < |doc|
  {
    var text := doc[pos.line];
    var o := t.openTag;
    o.line == pos.line &&
    IsNearestOpen(text, pos.character, o.startChar) &&
    o.endChar >= 1 && IsFirstGt(text, o.startChar, o.endChar - 1) &&
    TagNameIn(text[o.startChar..o.endChar]) == Some(t.tagName) &&
    t.isSelfClosing == SelfClosing(text[o.startChar..o.endChar], t.tagName) &&
    (t.isSelfClosing ==> t.closeTag == None) &&
    (!t.isSelfClosing ==>
       t.closeTag.Some? && IsMatchingCloser(doc, pos.line, o.endChar, t.tagName, t.closeTag.value))
  }

  /** The three early `null` returns and the missing-closer `null` return. */
  ghost predicate NotLocatable(doc: Document, pos: Position)
    requires pos.line < |doc|
  {
    var text := doc[pos.line];
    NoOpenAtOrBefore(text, pos.character) ||
    exists s: nat :: IsNearestOpen(text, pos.character, s) &&
      (NoGtFrom(text, s) ||
       exists e: nat :: IsFirstGt(text, s, e) && Unresolvable(doc, pos.line, text[s..e + 1], e + 1))
  }

  /** `findTagAtPosition(document, position)`. */
  method FindTagAtPosition(doc: Document, pos: Position) returns (r: Option<TagInfo>)
    requires pos.line < |doc|
    ensures r.Some? ==> IsLocated(doc, pos, r.value)
    ensures r.None? ==> NotLocatable(doc, pos)
  {
    var text := doc[pos.line];
    var cursorChar := pos.character;
    var openTagStart := -1;
    var openTagEnd := -1;

    var i: int := cursorChar;
    while i >= 0
      invariant -1 <= i <= cursorChar
      invariant openTagStart == -1
      invariant forall j :: i < j <= cursorChar ==> !IsOpenBracket(text, j)
    {
      if IsOpenBracket(text, i) {
        openTagStart := i;
        break;
      }
      i := i - 1;
    }
    if openTagStart == -1 {
      return None;
    }

    i := openTagStart;
    while i < |text|
      invariant openTagStart <= i <= |text|
      invariant openTagEnd == -1
      invariant forall j :: openTagStart <= j < i ==> text[j] != '>'
    {
      if text[i] == '>' {
        openTagEnd := i;
        break;
      }
      i := i + 1;
    }
    if openTagEnd == -1 {
      ScanFails(doc, pos, openTagStart);
      return None;
    }

    var openTag := text[openTagStart..openTagEnd + 1];
    var tagNameMatch := TagNameIn(openTag);
    if tagNameMatch.None? {
      ScanUnresolvable(doc, pos, openTagStart, openTagEnd);
      return None;
    }
    var tagName := tagNameMatch.value;
    var span := TagSpan(pos.line, openTagStart, openTagEnd + 1);

    if HasSelfCloseMarker(openTag) || IsVoidElement(tagName) {
      ScanLocates(doc, pos, openTagStart, openTagEnd, TagInfo(tagName, span, None, true));
      return Some(TagInfo(tagName, span, None, true));
    }

    var closeTagInfo := FindClosingTag(doc, pos.line, openTagEnd + 1, tagName);
    if closeTagInfo.None? {
      ScanUnresolvable(doc, pos, openTagStart, openTagEnd);
      return None;
    }
    ScanLocates(doc, pos, openTagStart, openTagEnd, TagInfo(tagName, span, closeTagInfo, false));
    return Some(TagInfo(tagName, span, closeTagInfo, false));
  }

  /** An opening `<` with no `>` after it is one of the `null` cases. */
  lemma ScanFails(doc: Document, pos: Position, s: nat)
    requires pos.line < |doc|
    requires IsNearestOpen(doc[pos.line], pos.character, s) && NoGtFrom(doc[pos.line], s)
    ensures NotLocatable(doc, pos)
  {
  }

  /** A delimiter without a name, or a non-self-closing one without a
      closer, is one of the `null` cases. */
  lemma ScanUnresolvable(doc: Document, pos: Position, s: nat, e: nat)
    requires pos.line < |doc|
    requires IsNearestOpen(doc[pos.line], pos.character, s) && IsFirstGt(doc[pos.line], s, e)
    requires Unresolvable(doc, pos.line, doc[pos.line][s..e + 1], e + 1)
    ensures NotLocatable(doc, pos)
  {
  }

  /** The facts the scan establishes about the opening `<` at `s` and the
      first `>` at `e` make `t` the located tag. */
  lemma ScanLocates(doc: Document, pos: Position, s: nat, e: nat, t: TagInfo)
    requires pos.line < |doc|
    requires IsNearestOpen(doc[pos.line], pos.character, s) && IsFirstGt(doc[pos.line], s, e)
    requires t.openTag == TagSpan(pos.line, s, e + 1)
    requires TagNameIn(doc[pos.line][s..e + 1]) == Some(t.tagName)
    requires t.isSelfClosing == SelfClosing(doc[pos.line][s..e + 1], t.tagName)
    requires t.isSelfClosing ==> t.closeTag == None
    requires !t.isSelfClosing ==> t.closeTag.Some? && IsMatchingCloser(doc, pos.line, e + 1, t.tagName, t.closeTag.value)
    ensures IsLocated(doc, pos, t)
  {
  }

  /** There is at most one nearest opening `<` for a cursor column. */
  lemma NearestOpenUnique(text: string, c: nat, s1: nat, s2: nat)
    requires IsNearestOpen(text, c, s1) && IsNearestOpen(text, c, s2)
    ensures s1 == s2
  {
    if s1 < s2 {
      assert false;
    } else if s2 < s1 {
      assert false;
    }
  }

  /** There is at most one first `>` after a column. */
  lemma FirstGtUnique(text: string, s: nat, e1: nat, e2: nat)
    requires IsFirstGt(text, s, e1) && IsFirstGt(text, s, e2)
    ensures e1 == e2
  {
    if e1 < e2 {
      assert false;
    } else if e2 < e1 {
      assert false;
    }
  }

  /** The located tag is determined by the document and the cursor. */
  lemma LocatedUnique(doc: Document, pos: Position, t1: TagInfo, t2: TagInfo)
    requires pos.line < |doc|
    requires IsLocated(doc, pos, t1) && IsLocated(doc, pos, t2)
    ensures t1 == t2
  {
    var text := doc[pos.line];
    NearestOpenUnique(text, pos.character, t1.openTag.startChar, t2.openTag.startChar);
    FirstGtUnique(text, t1.openTag.startChar, t1.openTag.endChar - 1, t2.openTag.endChar - 1);
    assert t1.openTag == t2.openTag;
    if !t1.isSelfClosing {
      MatchingCloserUnique(doc, pos.line, t1.openTag.endChar, t1.tagName, t1.closeTag.value, t2.closeTag.value);
    }
  }

  /** A cursor that locates a tag is not one of the `null` cases, so the two
      postconditions of `FindTagAtPosition` between them fix its answer. */
  lemma LocatedExcludesNotLocatable(doc: Document, pos: Position, t: TagInfo)
    requires pos.line < |doc|
    requires IsLocated(doc, pos, t)
    ensures !NotLocatable(doc, pos)
  {
    var s, e := t.openTag.startChar, t.openTag.endChar - 1;
    if !t.isSelfClosing {
      MatchExcludesNoCloser(doc, pos.line, t.openTag.endChar, t.tagName, t.closeTag.value);
    }
    assert !Unresolvable(doc, pos.line, doc[pos.line][s..e + 1], e + 1);
    ScanSucceeds(doc, pos, s, e);
  }

  /** When the nearest `<` and the first `>` after it delimit a tag that
      resolves, the cursor is not one of the `null` cases. */
  lemma ScanSucceeds(doc: Document, pos: Position, s: nat, e: nat)
    requires pos.line < |doc|
    requires IsNearestOpen(doc[pos.line], pos.character, s) && IsFirstGt(doc[pos.line], s, e)
    requires !Unresolvable(doc, pos.line, doc[pos.line][s..e + 1], e + 1)
    ensures !NotLocatable(doc, pos)
  {
    var text := doc[pos.line];
    var c := pos.character;
    assert !NoOpenAtOrBefore(text, c);
    forall s': nat | IsNearestOpen(text, c, s')
      ensures s' == s && !NoGtFrom(text, s')
    {
      NearestOpenUnique(text, c, s, s');
    }
    forall e': nat | IsFirstGt(text, s, e')
      ensures e' == e
    {
      FirstGtUnique(text, s, e, e');
    }
  }

  /** The opening span of a located tag starts at an opening `<` at or
      before the cursor, on the cursor's line, and ends just after its only
      `>`; it holds at least `<` and `>`, and the captured name is a
      non-empty run of word characters. */
  lemma LocatedOpenSpan(doc: Document, pos: Position, t: TagInfo)
    requires pos.line < |doc|
    requires IsLocated(doc, pos, t)
    ensures var text := doc[pos.line]; var o := t.openTag;
      o.line == pos.line && o.startChar <= pos.character && o.startChar + 2 <= o.endChar <= |text| &&
      text[o.startChar] == '<' && (o.startChar == 0 || text[o.startChar - 1] != '/') &&
      text[o.endChar - 1] == '>' &&
      (forall j :: o.startChar <= j < o.endChar - 1 ==> text[j] != '>') &&
      IsTagName(t.tagName)
  {
  }

  /** A located tag is self-closing exactly when its delimiter ends in `/>`
      or its name is a void element. */
  lemma LocatedSelfClosing(doc: Document, pos: Position, t: TagInfo)
    requires pos.line < |doc|
    requires IsLocated(doc, pos, t)
    ensures var text := doc[pos.line]; var o := t.openTag;
      t.isSelfClosing <==> text[o.endChar - 2] == '/' || IsVoidElement(t.tagName)
  {
    LocatedOpenSpan(doc, pos, t);
    SelfClosingAtEnd(doc[pos.line], t.openTag.startChar, t.openTag.endChar - 1, t.tagName);
  }

  /** For the delimiter `[s, e]` that ends at the first `>` after `s`, the
      `/>` test looks only at the character before that `>`. */
  lemma SelfClosingAtEnd(text: string, s: nat, e: nat, name: string)
    requires s < e && IsFirstGt(text, s, e)
    ensures SelfClosing(text[s..e + 1], name) <==> text[e - 1] == '/' || IsVoidElement(name)
  {
    var openTag := text[s..e + 1];
    SelfCloseMarkerIsAtEnd(openTag);
    assert openTag[|openTag| - 1] == text[e];
    assert openTag[|openTag| - 2] == text[e - 1];
  }

  /** A located tag has a closer exactly when it is not self-closing; the
      closer lies after the opening span and its text is `</name>`. */
  lemma LocatedCloseSpan(doc: Document, pos: Position, t: TagInfo)
    requires pos.line < |doc|
    requires IsLocated(doc, pos, t)
    ensures t.closeTag.None? <==> t.isSelfClosing
    ensures t.closeTag.Some? ==>
      var c := t.closeTag.value;
      (c.line > pos.line || (c.line == pos.line && c.startChar >= t.openTag.endChar)) &&
      c.line < |doc| && c.endChar <= |doc[c.line]| &&
      doc[c.line][c.startChar..c.endChar] == "</" + t.tagName + ">"
  {
    if t.closeTag.Some? {
      CloserSpanText(doc, pos.line, t.openTag.endChar, t.tagName, t.closeTag.value);
    }
  }
}
