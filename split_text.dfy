/**
 * The text splitter used by the section titles: it replaces an element's text with one
 * node per character, per word or per line, and records the created nodes.
 */
module SplitText {
  import opened Wrappers
  import opened JsStrings

  datatype Tag = Span | Div

  /**
   * A created node: its tag, class name and text, whether it is styled
   * `display: inline-block`, and whether it gets the `0.25em` right margin.
   */
  datatype Piece = Piece(tag: Tag, className: string, text: string, inlineBlock: bool, marginRight: bool)

  /** The DOM element being split: its text and the nodes appended to it. */
  class Element {
    var textContent: string
    var children: seq<Piece>

    constructor (text: string)
      ensures textContent == text && children == []
    {
      textContent := text;
      children := [];
    }
  }

  /** The options object; each field may be left `undefined`. */
  datatype Options = Options(splitType: Option<string>, charsClass: Option<string>,
                             wordsClass: Option<string>, linesClass: Option<string>)

  datatype Kind = Chars | Words | Lines | NoSplit

  /** The type dispatch: default `'chars'`, then substring tests in the order chars, words, lines. */
  function Dispatch(splitType: Option<string>): (k: Kind)
    ensures splitType.None? ==> k == Chars
    ensures k == Chars <==> Includes(splitType.GetOr("chars"), "chars")
    ensures k == Words <==> !Includes(splitType.GetOr("chars"), "chars") && Includes(splitType.GetOr("chars"), "words")
    ensures k == NoSplit <==> !Includes(splitType.GetOr("chars"), "chars") && !Includes(splitType.GetOr("chars"), "words")
                              && !Includes(splitType.GetOr("chars"), "lines")
  {
    var t := splitType.GetOr("chars");
    if Includes(t, "chars") then Chars
    else if Includes(t, "words") then Words
    else if Includes(t, "lines") then Lines
    else NoSplit
  }

  const Nbsp: char := '\U{00A0}'

  /** The text of a character's span: a space becomes a non-breaking space. */
  function CharText(ch: char): string {
    if ch == ' ' then [Nbsp] else [ch]
  }

  /** The spans `splitChars` creates for `text`. */
  function CharSpans(text: string, cls: string): seq<Piece> {
    seq(|text|, i requires 0 <= i < |text| => Piece(Span, cls, CharText(text[i]), true, false))
  }

  /** The spans `splitWords` creates for the words `words`: all but the last get a right margin. */
  function WordSpans(words: seq<string>, cls: string): seq<Piece> {
    seq(|words|, i requires 0 <= i < |words| => Piece(Span, cls, words[i], true, i < |words| - 1))
  }

  /** The `div`s `splitLines` creates for the lines `lines`. */
  function LineDivs(lines: seq<string>, cls: string): seq<Piece> {
    seq(|lines|, i requires 0 <= i < |lines| => Piece(Div, cls, lines[i], false, false))
  }

  /** The nodes `split` creates for `text` under `options`. */
  function Pieces(text: string, options: Options): seq<Piece> {
    match Dispatch(options.splitType)
    case Chars => CharSpans(text, options.charsClass.GetOr("split-char"))
    case Words => WordSpans(Split(text, ' '), options.wordsClass.GetOr("split-word"))
    case Lines => LineDivs(Split(text, '\n'), options.linesClass.GetOr("split-line"))
    case NoSplit => []
  }

  /** The `textContent` of an element whose children are `ps`. */
  function Texts(ps: seq<Piece>): string
    decreases |ps|
  {
    if |ps| == 0 then "" else Texts(ps[..|ps| - 1]) + ps[|ps| - 1].text
  }

  /** The texts of the nodes, one per node. */
  function PieceTexts(ps: seq<Piece>): (r: seq<string>)
    ensures |r| == |ps| && forall i :: 0 <= i < |ps| ==> r[i] == ps[i].text
  {
    seq(|ps|, i requires 0 <= i < |ps| => ps[i].text)
  }

  /** `text` with every space replaced by a non-breaking space. */
  function WithNbsp(text: string): (r: string)
    ensures |r| == |text|
  {
    seq(|text|, i requires 0 <= i < |text| => if text[i] == ' ' then Nbsp else text[i])
  }

  // ---------------------------------------------------------------------------
  // What the split leaves behind
  // ---------------------------------------------------------------------------

  /**
   * Character split: one span per character of the text, in order; span `i` holds
   * `text[i]`, or a non-breaking space for a space; together they read as `WithNbsp(text)`.
   */
  lemma {:induction false} CharSplitSpec(text: string, cls: string)
    ensures |CharSpans(text, cls)| == |text|
    ensures forall i :: 0 <= i < |text| ==>
              CharSpans(text, cls)[i].text == (if text[i] == ' ' then [Nbsp] else [text[i]])
    ensures Texts(CharSpans(text, cls)) == WithNbsp(text)
    decreases |text|
  {
    if |text| > 0 {
      var n := |text| - 1;
      CharSplitSpec(text[..n], cls);
      assert CharSpans(text, cls)[..n] == CharSpans(text[..n], cls);
      assert WithNbsp(text) == WithNbsp(text[..n]) + CharText(text[n]);
    }
  }

  /** A text without spaces reads the same after a character split. */
  lemma CharSplitKeepsSpaceFreeText(text: string, cls: string)
    requires ' ' !in text
    ensures Texts(CharSpans(text, cls)) == text
  {
    CharSplitSpec(text, cls);
    assert WithNbsp(text) == text;
  }

  /**
   * Word split: the span texts are the text split on spaces, and joining them with a space
   * gives back the text; there is one more span than there are spaces, and exactly the
   * spans before the last carry the right margin.
   */
  lemma WordSplitSpec(text: string, cls: string)
    ensures |WordSpans(Split(text, ' '), cls)| == Occurrences(text, ' ') + 1
    ensures PieceTexts(WordSpans(Split(text, ' '), cls)) == Split(text, ' ')
    ensures Join(PieceTexts(WordSpans(Split(text, ' '), cls)), ' ') == text
    ensures forall i :: 0 <= i < |WordSpans(Split(text, ' '), cls)| ==>
              (WordSpans(Split(text, ' '), cls)[i].marginRight <==> i < Occurrences(text, ' '))
  {
    SplitCount(text, ' ');
    JoinSplit(text, ' ');
    assert PieceTexts(WordSpans(Split(text, ' '), cls)) == Split(text, ' ');
  }

  /**
   * Line split: the `div` texts are the text split on newlines, and joining them with a
   * newline gives back the text.
   */
  lemma LineSplitSpec(text: string, cls: string)
    ensures |LineDivs(Split(text, '\n'), cls)| == Occurrences(text, '\n') + 1
    ensures PieceTexts(LineDivs(Split(text, '\n'), cls)) == Split(text, '\n')
    ensures Join(PieceTexts(LineDivs(Split(text, '\n'), cls)), '\n') == text
  {
    SplitCount(text, '\n');
    JoinSplit(text, '\n');
    assert PieceTexts(LineDivs(Split(text, '\n'), cls)) == Split(text, '\n');
  }

  // ---------------------------------------------------------------------------
  // The splitter object
  // ---------------------------------------------------------------------------

  class SplitText {
    var element: Element?
    const options: Options
    var chars: seq<Piece>
    var words: seq<Piece>
    var lines: seq<Piece>
    /** Read by `revert`; nothing ever assigns it, so it stays `undefined`. */
    var originalText: Option<string>

    /** The only invariant the class keeps: `originalText` is never set. */
    ghost predicate Valid()
      reads this
    {
      originalText == None
    }

    /**
     * Construction runs `split` when there is an element, so only the list for the
     * dispatched type is filled; without an element all three lists stay empty.
     */
    constructor (element: Element?, options: Options)
      modifies element
      ensures Valid()
      ensures this.element == element && this.options == options
      ensures element == null ==> chars == [] && words == [] && lines == []
      ensures element != null ==>
                var ps := Pieces(old(element.textContent), options);
                var k := Dispatch(options.splitType);
                && element.children == ps
                && element.textContent == Texts(ps)
                && chars == (if k == Chars then ps else [])
                && words == (if k == Words then ps else [])
                && lines == (if k == Lines then ps else [])
    {
      this.element := element;
      this.options := options;
      chars, words, lines := [], [], [];
      originalText := None;
      new;
      if element != null {
        Split();
      }
    }

    /**
     * Read the element's text, clear the element, and split the text the way the options'
     * type selects; a type that names none of the three leaves the element empty.
     */
    method Split()
      requires element != null
      modifies this, element
      ensures element == old(element) && originalText == old(originalText)
      ensures var ps := Pieces(old(element.textContent), options);
              var k := Dispatch(options.splitType);
              && element.children == ps
              && element.textContent == Texts(ps)
              && chars == old(chars) + (if k == Chars then ps else [])
              && words == old(words) + (if k == Words then ps else [])
              && lines == old(lines) + (if k == Lines then ps else [])
    {
      var text := element.textContent;
      element.textContent, element.children := "", [];
      var k := Dispatch(options.splitType);
      if k == Chars {
        SplitChars(text);
      } else if k == Words {
        SplitWords(text);
      } else if k == Lines {
        SplitLines(text);
      }
    }

    /** Append one node to the element. */
    static method Append(e: Element, p: Piece)
      modifies e
      ensures e.children == old(e.children) + [p]
      ensures e.textContent == old(e.textContent) + p.text
    {
      e.children := e.children + [p];
      e.textContent := e.textContent + p.text;
    }

    /** One span per character, appended to the element and to `chars`. */
    method SplitChars(text: string)
      requires element != null
      modifies this`chars, element
      ensures var ps := CharSpans(text, options.charsClass.GetOr("split-char"));
              && chars == old(chars) + ps
              && element.children == old(element.children) + ps
              && element.textContent == old(element.textContent) + Texts(ps)
    {
      var cls := options.charsClass.GetOr("split-char");
      ghost var ps := CharSpans(text, cls);
      var i := 0;
      while i < |text|
        invariant 0 <= i <= |text|
        invariant chars == old(chars) + ps[..i]
        invariant element.children == old(element.children) + ps[..i]
        invariant element.textContent == old(element.textContent) + Texts(ps[..i])
      {
        var span := Piece(Span, cls, if text[i] == ' ' then [Nbsp] else [text[i]], true, false);
        assert ps[..i + 1] == ps[..i] + [span];
        Append(element, span);
        chars := chars + [span];
        i := i + 1;
      }
      assert ps[..|text|] == ps;
    }

    /** One span per space-separated word; all but the last get a right margin. */
    method SplitWords(text: string)
      requires element != null
      modifies this`words, element
      ensures var ps := WordSpans(JsStrings.Split(text, ' '), options.wordsClass.GetOr("split-word"));
              && words == old(words) + ps
              && element.children == old(element.children) + ps
              && element.textContent == old(element.textContent) + Texts(ps)
    {
      var ws := JsStrings.Split(text, ' ');
      var cls := options.wordsClass.GetOr("split-word");
      ghost var ps := WordSpans(ws, cls);
      var i := 0;
      while i < |ws|
        invariant 0 <= i <= |ws|
        invariant words == old(words) + ps[..i]
        invariant element.children == old(element.children) + ps[..i]
        invariant element.textContent == old(element.textContent) + Texts(ps[..i])
      {
        var span := Piece(Span, cls, ws[i], true, i < |ws| - 1);
        assert ps[..i + 1] == ps[..i] + [span];
        Append(element, span);
        words := words + [span];
        i := i + 1;
      }
      assert ps[..|ws|] == ps;
    }

    /** One `div` per newline-separated line. */
    method SplitLines(text: string)
      requires element != null
      modifies this`lines, element
      ensures var ps := LineDivs(JsStrings.Split(text, '\n'), options.linesClass.GetOr("split-line"));
              && lines == old(lines) + ps
              && element.children == old(element.children) + ps
              && element.textContent == old(element.textContent) + Texts(ps)
    {
      var ls := JsStrings.Split(text, '\n');
      var cls := options.linesClass.GetOr("split-line");
      ghost var ps := LineDivs(ls, cls);
      var i := 0;
      while i < |ls|
        invariant 0 <= i <= |ls|
        invariant lines == old(lines) + ps[..i]
        invariant element.children == old(element.children) + ps[..i]
        invariant element.textContent == old(element.textContent) + Texts(ps[..i])
      {
        var div := Piece(Div, cls, ls[i], false, false);
        assert ps[..i + 1] == ps[..i] + [div];
        Append(element, div);
        lines := lines + [div];
        i := i + 1;
      }
      assert ps[..|ls|] == ps;
    }

    /**
     * Restore the element's text from `originalText` when there is one. Since no member
     * assigns that field (`Valid()`), the element is left as it is.
     */
    method Revert()
      modifies element
      ensures element != null && originalText.Some? && originalText.value != "" ==>
                element.textContent == originalText.value && element.children == []
      ensures Valid() && element != null ==>
                element.textContent == old(element.textContent) && element.children == old(element.children)
    {
      if element != null && originalText.Some? && originalText.value != "" {
        element.textContent, element.children := originalText.value, [];
      }
    }
  }
}
