/** The comment-out edit (extension.js, `commentOutTag`): every delimiter
    span of a located tag is replaced by `<!-- ` + its original text + ` -->`,
    all replacements computed against the original document. The host
    editor's edit builder is modelled by `ApplyEdits`, which applies a list of
    ordered, non-overlapping edits back to front. */
module Commenter {
  import opened Text
  import opened Tags
  import opened Locator

  /** Replace the characters of `span` with `replacement`. */
  datatype Edit = Edit(span: TagSpan, replacement: string)

  /** `sp` addresses existing characters of `doc`. */
  predicate ValidSpan(doc: Document, sp: TagSpan) {
    sp.line < |doc| && sp.startChar <= sp.endChar <= |doc[sp.line]|
  }

  /** `a` ends at or before the start of `b` in reading order. */
  predicate Before(a: TagSpan, b: TagSpan) {
    a.line < b.line || (a.line == b.line && a.endChar <= b.startChar)
  }

  /** The text of a span: `lineAt(line).text.substring(startChar, endChar)`. */
  function SpanText(doc: Document, sp: TagSpan): (r: string)
    requires ValidSpan(doc, sp)
    ensures |r| == sp.endChar - sp.startChar
    ensures forall i :: 0 <= i < |r| ==> r[i] == doc[sp.line][sp.startChar + i]
  {
    doc[sp.line][sp.startChar..sp.endChar]
  }

  /** The comment wrapper `<!-- t -->`: nine characters longer than `t`,
      which can be read back from between the markers. */
  function Wrap(t: string): (r: string)
    ensures |r| == |t| + 9
    ensures r[..5] == "<!-- " && r[|r| - 4..] == " -->"
    ensures r[5..|r| - 4] == t
  {
    "<!-- " + t + " -->"
  }

  /** `line` with the characters `[s, e)` replaced by `rep`. */
  function Splice(line: string, s: nat, e: nat, rep: string): (r: string)
    requires s <= e <= |line|
    ensures |r| == |line| - (e - s) + |rep|
  {
    line[..s] + rep + line[e..]
  }

  /** The tag has a closing span that `commentOutTag` rewrites. */
  predicate HasCloseEdit(tag: TagInfo) {
    !tag.isSelfClosing && tag.closeTag.Some?
  }

  /** The edits of `commentOutTag`: the opening span, then the closing span
      when the tag is not self-closing and has one, each replaced by its own
      original text wrapped in a comment. */
  function CommentOutEdits(doc: Document, tag: TagInfo): (r: seq<Edit>)
    requires ValidSpan(doc, tag.openTag)
    requires HasCloseEdit(tag) ==> ValidSpan(doc, tag.closeTag.value)
    ensures |r| == (if HasCloseEdit(tag) then 2 else 1)
    ensures r[0].span == tag.openTag
    ensures |r| == 2 ==> r[1].span == tag.closeTag.value
    ensures forall i :: 0 <= i < |r| ==>
              ValidSpan(doc, r[i].span) && r[i].replacement == Wrap(SpanText(doc, r[i].span))
  {
    var openEdit := Edit(tag.openTag, Wrap(SpanText(doc, tag.openTag)));
    if HasCloseEdit(tag) then
      [openEdit, Edit(tag.closeTag.value, Wrap(SpanText(doc, tag.closeTag.value)))]
    else
      [openEdit]
  }

  /** Every edit addresses existing text, and the edits are in reading order
      without overlapping. */
  predicate Applicable(doc: Document, edits: seq<Edit>) {
    (forall i :: 0 <= i < |edits| ==> ValidSpan(doc, edits[i].span)) &&
    (forall i, j :: 0 <= i < j < |edits| ==> Before(edits[i].span, edits[j].span))
  }

  /** Apply one edit to its line. */
  function ApplyEdit(doc: Document, e: Edit): Document
    requires ValidSpan(doc, e.span)
  {
    doc[e.span.line := Splice(doc[e.span.line], e.span.startChar, e.span.endChar, e.replacement)]
  }

  /** Apply ordered edits back to front, so that the offsets of each earlier
      edit still address the original text. */
  function ApplyEdits(doc: Document, edits: seq<Edit>): (r: Document)
    requires Applicable(doc, edits)
    decreases |edits|
    ensures |r| == |doc|
    ensures forall l :: 0 <= l < |doc| && (forall i :: 0 <= i < |edits| ==> edits[i].span.line != l) ==>
              r[l] == doc[l]
  {
    if edits == [] then doc
    else
      var n := |edits| - 1;
      var next := ApplyEdit(doc, edits[n]);
      assert Applicable(next, edits[..n]) by {
        forall i | 0 <= i < n ensures ValidSpan(next, edits[i].span) {
          assert Before(edits[i].span, edits[n].span);
        }
      }
      ApplyEdits(next, edits[..n])
  }

  /** The spans of `tag` address text of `doc`, and a closing span that will
      be rewritten comes after the opening one. */
  predicate WellFormed(doc: Document, tag: TagInfo) {
    ValidSpan(doc, tag.openTag) &&
    (HasCloseEdit(tag) ==> ValidSpan(doc, tag.closeTag.value) && Before(tag.openTag, tag.closeTag.value))
  }

  /** `line` with the characters `[s, e)` wrapped in a comment. */
  function CommentedAt(line: string, s: nat, e: nat): string
    requires s <= e <= |line|
  {
    line[..s] + Wrap(line[s..e]) + line[e..]
  }

  /** The document after the host editor has applied the comment-out edits. */
  function CommentOut(doc: Document, tag: TagInfo): Document
    requires WellFormed(doc, tag)
  {
    ApplyEdits(doc, CommentOutEdits(doc, tag))
  }

  /** `line` with both `[os, oe)` and the later `[cs, ce)` wrapped in a
      comment. */
  function CommentedTwiceAt(line: string, os: nat, oe: nat, cs: nat, ce: nat): string
    requires os <= oe <= cs <= ce <= |line|
  {
    line[..os] + Wrap(line[os..oe]) + line[oe..cs] + Wrap(line[cs..ce]) + line[ce..]
  }

  /** Applying the comment-out edits wraps the opening span and, when there
      is one to rewrite, the closing span in `<!-- ` ... ` -->`; every other
      line of the document is kept. */
  lemma CommentOutEffect(doc: Document, tag: TagInfo)
    requires WellFormed(doc, tag)
    ensures !HasCloseEdit(tag) ==>
              var o := tag.openTag;
              CommentOut(doc, tag) == doc[o.line := CommentedAt(doc[o.line], o.startChar, o.endChar)]
    ensures HasCloseEdit(tag) && tag.closeTag.value.line != tag.openTag.line ==>
              var o, c := tag.openTag, tag.closeTag.value;
              CommentOut(doc, tag) == doc[o.line := CommentedAt(doc[o.line], o.startChar, o.endChar)]
                                         [c.line := CommentedAt(doc[c.line], c.startChar, c.endChar)]
    ensures HasCloseEdit(tag) && tag.closeTag.value.line == tag.openTag.line ==>
              var o, c := tag.openTag, tag.closeTag.value;
              CommentOut(doc, tag) == doc[o.line := CommentedTwiceAt(doc[o.line], o.startChar, o.endChar, c.startChar, c.endChar)]
  {
    if !HasCloseEdit(tag) {
      CommentOutOpenOnly(doc, tag);
    } else {
      var edits := CommentOutEdits(doc, tag);
      var mid := ApplyEdit(doc, edits[1]);
      ApplyTwo(doc, edits[0], edits[1]);
      if tag.closeTag.value.line == tag.openTag.line {
        CommentOutSameLine(doc, tag, mid);
      }
    }
  }

  /** With no closing span to rewrite, only the opening span is wrapped. */
  lemma CommentOutOpenOnly(doc: Document, tag: TagInfo)
    requires WellFormed(doc, tag) && !HasCloseEdit(tag)
    ensures var o := tag.openTag;
      CommentOut(doc, tag) == doc[o.line := CommentedAt(doc[o.line], o.startChar, o.endChar)]
  {
    ApplyOne(doc, CommentOutEdits(doc, tag)[0]);
  }

  /** With both spans on one line, wrapping the closing span first leaves the
      offsets of the opening span in place. */
  lemma CommentOutSameLine(doc: Document, tag: TagInfo, mid: Document)
    requires WellFormed(doc, tag) && HasCloseEdit(tag)
    requires tag.closeTag.value.line == tag.openTag.line
    requires mid == ApplyEdit(doc, CommentOutEdits(doc, tag)[1])
    ensures var o, c := tag.openTag, tag.closeTag.value;
      ValidSpan(mid, o) &&
      ApplyEdit(mid, CommentOutEdits(doc, tag)[0]) ==
        doc[o.line := CommentedTwiceAt(doc[o.line], o.startChar, o.endChar, c.startChar, c.endChar)]
  {
    var o, c := tag.openTag, tag.closeTag.value;
    SpliceLaterFirst(doc[o.line], o.startChar, o.endChar, c.startChar, c.endChar);
  }

  /** Wrapping `[cs, ce)` first and then the earlier `[os, oe)` wraps both. */
  lemma SpliceLaterFirst(line: string, os: nat, oe: nat, cs: nat, ce: nat)
    requires os <= oe <= cs <= ce <= |line|
    ensures var line1 := Splice(line, cs, ce, Wrap(line[cs..ce]));
      oe <= |line1| && line1[os..oe] == line[os..oe] &&
      Splice(line1, os, oe, Wrap(line[os..oe])) == CommentedTwiceAt(line, os, oe, cs, ce)
  {
    var line1 := Splice(line, cs, ce, Wrap(line[cs..ce]));
    assert line1[..os] == line[..os];
    assert line1[os..oe] == line[os..oe];
    assert line1[oe..] == line[oe..cs] + Wrap(line[cs..ce]) + line[ce..];
    assert Splice(line1, os, oe, Wrap(line[os..oe])) == CommentedTwiceAt(line, os, oe, cs, ce);
  }

  /** Removing the wrapper of `CommentedAt` gives the line back. */
  lemma UncommentAt(line: string, s: nat, e: nat)
    requires s <= e <= |line|
    ensures |CommentedAt(line, s, e)| == |line| + 9
    ensures Splice(CommentedAt(line, s, e), s, e + 9, line[s..e]) == line
  {
    var w := CommentedAt(line, s, e);
    assert w[..s] == line[..s];
    assert w[e + 9..] == line[e..];
  }

  /** The edits that undo `CommentOutEdits` on the commented document: each
      wrapped span, 9 characters longer than before and shifted by 9 when it
      follows the opening span on the same line, gets its original text back. */
  function RestoreEdits(doc: Document, tag: TagInfo): seq<Edit>
    requires WellFormed(doc, tag)
  {
    var o := tag.openTag;
    var openEdit := Edit(TagSpan(o.line, o.startChar, o.endChar + 9), SpanText(doc, o));
    if HasCloseEdit(tag) then
      var c := tag.closeTag.value;
      var shift := if c.line == o.line then 9 else 0;
      [openEdit, Edit(TagSpan(c.line, c.startChar + shift, c.endChar + shift + 9), SpanText(doc, c))]
    else
      [openEdit]
  }

  /** Applying one edit. */
  lemma ApplyOne(doc: Document, e: Edit)
    requires ValidSpan(doc, e.span)
    ensures Applicable(doc, [e]) && ApplyEdits(doc, [e]) == ApplyEdit(doc, e)
  {
    assert ApplyEdits(doc, [e]) == ApplyEdits(ApplyEdit(doc, e), []);
  }

  /** Applying two ordered edits: the later one first. */
  lemma ApplyTwo(doc: Document, e0: Edit, e1: Edit)
    requires ValidSpan(doc, e0.span) && ValidSpan(doc, e1.span) && Before(e0.span, e1.span)
    ensures Applicable(doc, [e0, e1])
    ensures ValidSpan(ApplyEdit(doc, e1), e0.span)
    ensures ApplyEdits(doc, [e0, e1]) == ApplyEdit(ApplyEdit(doc, e1), e0)
  {
    assert [e0, e1][..1] == [e0];
    ApplyOne(ApplyEdit(doc, e1), e0);
  }

  /** Commenting out loses nothing: the restoring edits applied to the
      commented document give back the original document exactly. */
  lemma CommentOutReversible(doc: Document, tag: TagInfo)
    requires WellFormed(doc, tag)
    ensures Applicable(CommentOut(doc, tag), RestoreEdits(doc, tag))
    ensures ApplyEdits(CommentOut(doc, tag), RestoreEdits(doc, tag)) == doc
  {
    CommentOutEffect(doc, tag);
    if !HasCloseEdit(tag) {
      ReversibleOpenOnly(doc, tag);
    } else if tag.closeTag.value.line != tag.openTag.line {
      ReversibleTwoLines(doc, tag);
    } else {
      ReversibleOneLine(doc, tag);
    }
  }

  /** Reversibility when only the opening span is rewritten. */
  lemma ReversibleOpenOnly(doc: Document, tag: TagInfo)
    requires WellFormed(doc, tag) && !HasCloseEdit(tag)
    ensures Applicable(CommentOut(doc, tag), RestoreEdits(doc, tag))
    ensures ApplyEdits(CommentOut(doc, tag), RestoreEdits(doc, tag)) == doc
  {
    CommentOutEffect(doc, tag);
    var o := tag.openTag;
    UncommentAt(doc[o.line], o.startChar, o.endChar);
    var after := CommentOut(doc, tag);
    var back := RestoreEdits(doc, tag);
    ApplyOne(after, back[0]);
    assert ApplyEdit(after, back[0]) == doc;
  }

  /** Reversibility when the two spans lie on different lines. */
  lemma ReversibleTwoLines(doc: Document, tag: TagInfo)
    requires WellFormed(doc, tag) && HasCloseEdit(tag)
    requires tag.closeTag.value.line != tag.openTag.line
    ensures Applicable(CommentOut(doc, tag), RestoreEdits(doc, tag))
    ensures ApplyEdits(CommentOut(doc, tag), RestoreEdits(doc, tag)) == doc
  {
    CommentOutEffect(doc, tag);
    var o, c := tag.openTag, tag.closeTag.value;
    UncommentAt(doc[o.line], o.startChar, o.endChar);
    UncommentAt(doc[c.line], c.startChar, c.endChar);
    var after := CommentOut(doc, tag);
    var back := RestoreEdits(doc, tag);
    ApplyTwo(after, back[0], back[1]);
    var mid := ApplyEdit(after, back[1]);
    assert mid == doc[o.line := CommentedAt(doc[o.line], o.startChar, o.endChar)];
    assert ApplyEdit(mid, back[0]) == doc;
  }

  /** On a line with both spans wrapped, removing the second wrapper (whose
      offsets are shifted by the 9 characters the first one added) leaves
      only the first one. */
  lemma UncommentSecond(line: string, os: nat, oe: nat, cs: nat, ce: nat)
    requires os <= oe <= cs <= ce <= |line|
    ensures |CommentedTwiceAt(line, os, oe, cs, ce)| == |line| + 18
    ensures Splice(CommentedTwiceAt(line, os, oe, cs, ce), cs + 9, ce + 18, line[cs..ce]) == CommentedAt(line, os, oe)
  {
    var head := line[..os] + Wrap(line[os..oe]) + line[oe..cs];
    var twice := head + Wrap(line[cs..ce]) + line[ce..];
    assert twice == CommentedTwiceAt(line, os, oe, cs, ce);
    assert |head| == cs + 9;
    assert twice[..cs + 9] == head;
    assert twice[ce + 18..] == line[ce..];
    assert head + line[cs..ce] + line[ce..] == line[..os] + Wrap(line[os..oe]) + (line[oe..cs] + line[cs..ce] + line[ce..]);
    assert line[oe..cs] + line[cs..ce] + line[ce..] == line[oe..];
  }

  /** Reversibility when both spans lie on one line: the closing wrapper is
      removed first, at offsets shifted by the opening wrapper. */
  lemma ReversibleOneLine(doc: Document, tag: TagInfo)
    requires WellFormed(doc, tag) && HasCloseEdit(tag)
    requires tag.closeTag.value.line == tag.openTag.line
    ensures Applicable(CommentOut(doc, tag), RestoreEdits(doc, tag))
    ensures ApplyEdits(CommentOut(doc, tag), RestoreEdits(doc, tag)) == doc
  {
    CommentOutEffect(doc, tag);
    var o, c := tag.openTag, tag.closeTag.value;
    var line := doc[o.line];
    UncommentSecond(line, o.startChar, o.endChar, c.startChar, c.endChar);
    UncommentAt(line, o.startChar, o.endChar);
    var after := CommentOut(doc, tag);
    var back := RestoreEdits(doc, tag);
    assert back[1] == Edit(TagSpan(o.line, c.startChar + 9, c.endChar + 18), line[c.startChar..c.endChar]);
    assert back[0] == Edit(TagSpan(o.line, o.startChar, o.endChar + 9), line[o.startChar..o.endChar]);
    ApplyTwo(after, back[0], back[1]);
    var mid := ApplyEdit(after, back[1]);
    assert mid == doc[o.line := CommentedAt(line, o.startChar, o.endChar)];
    assert ApplyEdit(mid, back[0]) == doc;
  }

  /** A tag located by `FindTagAtPosition` can be commented out: its spans
      are well formed, there are two edits exactly when it is not
      self-closing, the first wraps the opening delimiter as written (so its
      case is kept) and the second wraps `</name>`. */
  lemma LocatedTagEdits(doc: Document, pos: Position, t: TagInfo)
    requires pos.line < |doc| && IsLocated(doc, pos, t)
    ensures WellFormed(doc, t)
    ensures HasCloseEdit(t) <==> !t.isSelfClosing
    ensures var edits := CommentOutEdits(doc, t);
      |edits| == (if t.isSelfClosing then 1 else 2) &&
      edits[0] == Edit(t.openTag, Wrap(doc[pos.line][t.openTag.startChar..t.openTag.endChar])) &&
      (!t.isSelfClosing ==> edits[1] == Edit(t.closeTag.value, Wrap("</" + t.tagName + ">")))
  {
    LocatedOpenSpan(doc, pos, t);
    LocatedCloseSpan(doc, pos, t);
    ShapedTagEdits(doc, t);
  }

  /** The edits for a tag whose opening span is valid and whose closer, when
      present, comes after it and reads `</name>`. */
  lemma ShapedTagEdits(doc: Document, t: TagInfo)
    requires ValidSpan(doc, t.openTag)
    requires t.closeTag.None? <==> t.isSelfClosing
    requires t.closeTag.Some? ==>
      var c := t.closeTag.value;
      (c.line > t.openTag.line || (c.line == t.openTag.line && c.startChar >= t.openTag.endChar)) &&
      c.line < |doc| && c.startChar <= c.endChar <= |doc[c.line]| &&
      doc[c.line][c.startChar..c.endChar] == "</" + t.tagName + ">"
    ensures WellFormed(doc, t)
    ensures HasCloseEdit(t) <==> !t.isSelfClosing
    ensures var edits := CommentOutEdits(doc, t);
      |edits| == (if t.isSelfClosing then 1 else 2) &&
      edits[0] == Edit(t.openTag, Wrap(SpanText(doc, t.openTag))) &&
      (!t.isSelfClosing ==> edits[1] == Edit(t.closeTag.value, Wrap("</" + t.tagName + ">")))
  {
  }
}
