/** Worked examples of the locator and the matcher on small documents. */
module Examples {
  import opened Text
  import opened Tags
  import opened Matcher
  import opened Locator
  import opened Commenter

  /** The name captured from `<div>`. */
  lemma DivName()
    ensures TagNameIn("<div>") == Some("div")
    ensures !SelfClosing("<div>", "div")
  {
    var s := "<div>";
    NameAfterBracket(s, "div");
    SelfCloseMarkerIsAtEnd(s);
    assert Lower("div") == "div";
  }

  /** The brackets of `<div><div>x</div></div>` after column 5: an opener
      at 5, closers at 11 and 17, and no other `<`. */
  lemma NestedDivBrackets(text: string)
    requires text == "<div><div>x</div></div>"
    ensures Delta(text, 5, "div") == 1
    ensures Delta(text, 11, "div") == -1
    ensures Delta(text, 17, "div") == -1
    ensures IsCloserAt(text, 17, "div")
    ensures forall j :: 5 < j < |text| && j != 11 && j != 17 ==> text[j] != '<'
  {
    assert text[6..9] == "div" by { assert text[6] == 'd' && text[7] == 'i' && text[8] == 'v'; }
    assert text[13..16] == "div" by { assert text[13] == 'd' && text[14] == 'i' && text[15] == 'v'; }
    assert text[19..22] == "div" by { assert text[19] == 'd' && text[20] == 'i' && text[21] == 'v'; }
    assert text[6] == 'd' && text[12] == '/' && text[18] == '/';
  }

  /** Nested same-named elements: in `<div><div>x</div></div>`, a scan started
      after the first `<div>` answers the outer `</div>` at column 17, not the
      inner one at column 11. */
  lemma NestedDivExample()
    ensures IsMatchingCloser(["<div><div>x</div></div>"], 0, 5, "div", TagSpan(0, 17, 23))
  {
    var text := "<div><div>x</div></div>";
    var doc: Document := [text];
    NestedDivBrackets(text);
    assert Net(text, 5, 6, "div") == 1;
    NetFlat(text, 5, 6, 11, "div");
    assert Net(text, 5, 12, "div") == 0;
    NetFlat(text, 5, 12, 17, "div");
    assert Net(text, 5, 18, "div") == -1;
    forall i | 5 <= i <= 17 ensures Depth(doc, 0, 5, "div", 0, i) > 0 {
      if i == 5 {
      } else if i <= 11 {
        NetFlat(text, 5, 6, i, "div");
      } else {
        NetFlat(text, 5, 12, i, "div");
      }
    }
  }

  /** `<div><div>x</div></div>` with the cursor inside the first `<div>`:
      the outer `</div>` at column 17 balances it. */
  lemma NestedDivLocated()
    ensures IsLocated(["<div><div>x</div></div>"], Position(0, 2),
                      TagInfo("div", TagSpan(0, 0, 5), Some(TagSpan(0, 17, 23)), false))
  {
    var text := "<div><div>x</div></div>";
    assert IsNearestOpen(text, 2, 0);
    assert IsFirstGt(text, 0, 4);
    assert text[0..5] == "<div>";
    DivName();
    NestedDivExample();
  }

  /** `<img src="a.png">` is a void element: it is located with no closer. */
  lemma ImgLocated()
    ensures IsLocated(["<img src=\"a.png\">"], Position(0, 3), TagInfo("img", TagSpan(0, 0, 17), None, true))
  {
    var text := "<img src=\"a.png\">";
    assert IsNearestOpen(text, 3, 0);
    assert IsFirstGt(text, 0, 16);
    assert text[0..17] == text;
    ImgName();
    ImgIsVoid();
  }

  /** The name captured from `<img src="a.png">`, a void element. */
  lemma ImgName()
    ensures TagNameIn("<img src=\"a.png\">") == Some("img")
  {
    var s := "<img src=\"a.png\">";
    NameAfterBracket(s, "img");
  }

  /** `img` is a void element. */
  lemma ImgIsVoid()
    ensures IsVoidElement("img")
  {
    assert Lower("img") == "img";
  }

  /** A void element written in capitals is still self-closing. */
  lemma UpperCaseImgLocated()
    ensures IsLocated(["<IMG>"], Position(0, 1), TagInfo("IMG", TagSpan(0, 0, 5), None, true))
  {
    var text := "<IMG>";
    assert IsNearestOpen(text, 1, 0);
    assert IsFirstGt(text, 0, 4);
    assert text[0..5] == text;
    NameAfterBracket(text, "IMG");
    assert Lower("IMG") == "img";
  }

  /** The comment keeps the spelling of the delimiter as written. */
  lemma UpperCaseImgCommented()
    ensures CommentOut(["<IMG>"], TagInfo("IMG", TagSpan(0, 0, 5), None, true)) == ["<!-- <IMG> -->"]
  {
    var doc: Document := ["<IMG>"];
    var t := TagInfo("IMG", TagSpan(0, 0, 5), None, true);
    CommentOutEffect(doc, t);
    WholeLineCommented("<IMG>");
    assert Wrap("<IMG>") == "<!-- <IMG> -->";
    assert doc[0 := "<!-- <IMG> -->"] == ["<!-- <IMG> -->"];
  }

  /** Wrapping the whole of a line gives the wrapper of that line. */
  lemma WholeLineCommented(line: string)
    ensures CommentedAt(line, 0, |line|) == Wrap(line)
  {
    assert line[..0] == [] && line[0..|line|] == line && line[|line|..] == [];
  }

  /** The backward scan skips a `<` directly after a `/`: in `a/<b>x</b>`
      with the cursor on the `b` of `<b>`, no `<` qualifies and nothing is
      located. */
  lemma OpenerAfterSlashIsSkipped()
    ensures NotLocatable(["a/<b>x</b>"], Position(0, 3))
  {
    var text := "a/<b>x</b>";
    assert !IsOpenBracket(text, 2);
    assert NoOpenAtOrBefore(text, 3);
  }

  /** With the cursor inside a closing delimiter, `<div>x</div>` at column 8,
      the nearest `<` is that of `</div>`, which has no `<\w` in it, so
      nothing is located. */
  lemma CursorOnCloserFindsNothing()
    ensures NotLocatable(["<div>x</div>"], Position(0, 8))
  {
    var text := "<div>x</div>";
    assert IsNearestOpen(text, 8, 6);
    assert IsFirstGt(text, 6, 11);
    var s := text[6..12];
    assert s == "</div>";
    assert forall j :: 0 <= j < |s| ==> !NameAt(s, j);
    assert Unresolvable(["<div>x</div>"], 0, s, 12);
  }

  /** `<section>` on line 0 is balanced by the `</section>` on line 2; the
      `<p>` and `</p>` on line 1 do not change the depth. */
  lemma SectionAcrossLines()
    ensures IsMatchingCloser(["<section>", "  <p>text</p>", "</section>"], 0, 9, "section", TagSpan(2, 0, 10))
  {
    var doc: Document := ["<section>", "  <p>text</p>", "</section>"];
    var name := "section";
    assert Net(doc[0], 9, 9, name) == 0;
    assert Carry(doc, 0, 9, name, 1) == 1;
    var mid := doc[1];
    assert !IsOpenerAt(mid, 2, name) by { assert mid[3..10] != name by { assert mid[3] == 'p'; } }
    assert !IsCloserAt(mid, 2, name) by { assert mid[3] == 'p'; }
    assert !IsOpenerAt(mid, 9, name) && !IsCloserAt(mid, 9, name);
    NetFlat(mid, 0, 0, 2, name);
    assert Net(mid, 0, 3, name) == 0;
    NetFlat(mid, 0, 3, 9, name);
    assert Net(mid, 0, 10, name) == 0;
    NetFlat(mid, 0, 10, 13, name);
    forall i | 0 <= i <= 13 ensures Net(mid, 0, i, name) == 0 {
      if i <= 2 {
        NetFlat(mid, 0, 0, i, name);
      } else if i <= 9 {
        NetFlat(mid, 0, 3, i, name);
      } else {
        NetFlat(mid, 0, 10, i, name);
      }
    }
    assert Carry(doc, 0, 9, name, 2) == 1;
    assert IsCloserAt(doc[2], 0, name) by { assert doc[2][2..9] == name; }
    assert Depth(doc, 0, 9, name, 2, 1) == 0;
  }

  /** Commenting out `<p>x</p>` on one line gives `<!-- <p> -->x<!-- </p> -->`. */
  lemma ParagraphCommented()
    ensures CommentOut(["<p>x</p>"], TagInfo("p", TagSpan(0, 0, 3), Some(TagSpan(0, 4, 8)), false))
         == ["<!-- <p> -->x<!-- </p> -->"]
  {
    var doc: Document := ["<p>x</p>"];
    var t := TagInfo("p", TagSpan(0, 0, 3), Some(TagSpan(0, 4, 8)), false);
    CommentOutEffect(doc, t);
    ParagraphWrapped();
  }

  /** Both delimiters of `<p>x</p>` wrapped on their line. */
  lemma ParagraphWrapped()
    ensures CommentedTwiceAt("<p>x</p>", 0, 3, 4, 8) == "<!-- <p> -->x<!-- </p> -->"
  {
    var line := "<p>x</p>";
    assert line[..0] == "" && line[0..3] == "<p>" && line[3..4] == "x" && line[4..8] == "</p>" && line[8..] == "";
  }
}
