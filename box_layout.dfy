/**
 * The paragraph box of aa.py (`solution`): each paragraph's words are wrapped
 * greedily into lines of at most `width` characters, each line is padded with
 * spaces to `width` (after the text for "LEFT", before it otherwise) and framed
 * by `*`, and the whole is put between two rows of `width + 2` asterisks.
 */
module BoxLayout {

  /** Python's `c * n` for a one-character string: empty when n is not positive. */
  function Repeat(c: char, n: int): string {
    if n <= 0 then [] else [c] + Repeat(c, n - 1)
  }

  /** `c * n` is n copies of c, or empty when n is not positive. */
  lemma {:induction false} RepeatShape(c: char, n: int)
    ensures |Repeat(c, n)| == if n > 0 then n else 0
    ensures forall i | 0 <= i < |Repeat(c, n)| :: Repeat(c, n)[i] == c
    decreases if n > 0 then n else 0
  {
    if n > 0 {
      RepeatShape(c, n - 1);
    }
  }

  function Border(width: int): string {
    Repeat('*', width + 2)
  }

  /** Python's `" ".join(words)` */
  function Join(words: seq<string>): string
    decreases |words|
  {
    if |words| == 0 then ""
    else if |words| == 1 then words[0]
    else Join(words[..|words| - 1]) + " " + words[|words| - 1]
  }

  /** One framed line: the joined words, padded to `width` per alignment, between two `*`. */
  function Render(words: seq<string>, align: string, width: int): string {
    var text := Join(words);
    var pad := Repeat(' ', width - |text|);
    "*" + (if align == "LEFT" then text + pad else pad + text) + "*"
  }

  function Last<T>(s: seq<T>): T
    requires s != []
  {
    s[|s| - 1]
  }

  /** Adds word `w` to the line groups built so far: onto the last line if it still fits, else on a new line. */
  function Step(groups: seq<seq<string>>, w: string, width: int): seq<seq<string>> {
    if groups == [] then [[w]]
    else if |Join(Last(groups))| + 1 + |w| > width then groups + [[w]]
    else groups[..|groups| - 1] + [Last(groups) + [w]]
  }

  /** The greedy line groups of one paragraph. */
  function Wrap(words: seq<string>, width: int): seq<seq<string>>
    decreases |words|
  {
    if words == [] then [] else Step(Wrap(words[..|words| - 1], width), Last(words), width)
  }

  /** The framed lines of a sequence of groups. */
  function Lines(groups: seq<seq<string>>, align: string, width: int): seq<string>
    decreases |groups|
  {
    if groups == [] then []
    else Lines(groups[..|groups| - 1], align, width) + [Render(Last(groups), align, width)]
  }

  /** One framed line per group, in order. */
  lemma {:induction false} LinesIndex(groups: seq<seq<string>>, align: string, width: int)
    ensures |Lines(groups, align, width)| == |groups|
    ensures forall k | 0 <= k < |groups| :: Lines(groups, align, width)[k] == Render(groups[k], align, width)
    decreases |groups|
  {
    if groups != [] {
      var n := |groups| - 1;
      LinesIndex(groups[..n], align, width);
      forall k | 0 <= k < n ensures Lines(groups, align, width)[k] == Render(groups[k], align, width) {
        assert groups[..n][k] == groups[k];
      }
    }
  }

  /** The framed lines of all paragraphs, in order. */
  function Body(paragraphs: seq<seq<string>>, aligns: seq<string>, width: int): seq<string>
    requires |paragraphs| <= |aligns|
    decreases |paragraphs|
  {
    if paragraphs == [] then []
    else
      var n := |paragraphs| - 1;
      Body(paragraphs[..n], aligns, width) + Lines(Wrap(paragraphs[n], width), aligns[n], width)
  }

  /** The whole box `solution` returns. */
  function Layout(paragraphs: seq<seq<string>>, aligns: seq<string>, width: int): seq<string>
    requires |paragraphs| <= |aligns|
  {
    [Border(width)] + Body(paragraphs, aligns, width) + [Border(width)]
  }

  // ------------------------------------------------------------------
  // The loops of `solution`

  /**
   * `solution(paragraphs, aligns, width)`. Python raises IndexError when there are
   * fewer alignments than paragraphs; callers must supply one per paragraph.
   */
  method Solution(paragraphs: seq<seq<string>>, aligns: seq<string>, width: int) returns (result: seq<string>)
    requires |paragraphs| <= |aligns|
    ensures result == Layout(paragraphs, aligns, width)
  {
    result := [];
    var border := Repeat('*', width + 2);
    result := result + [border];
    ghost var body: seq<string> := [];

    for i := 0 to |paragraphs|
      invariant body == Body(paragraphs[..i], aligns, width)
      invariant result == [border] + body
    {
      var lines := WrapParagraph(paragraphs[i], aligns[i], width);
      BodySnoc(paragraphs, aligns, width, i);
      assert result + lines == [border] + (body + lines);
      result := result + lines;
      body := body + lines;
    }

    assert paragraphs[..|paragraphs|] == paragraphs;
    result := result + [border];
  }

  /** The body of `solution`'s outer loop: the framed lines of one paragraph. */
  method WrapParagraph(paragraph: seq<string>, align: string, width: int) returns (lines: seq<string>)
    ensures lines == Lines(Wrap(paragraph, width), align, width)
  {
    lines := [];
    var currentLine: seq<string> := [];
    var currentLength := 0;
    ghost var done: seq<seq<string>> := [];

    for j := 0 to |paragraph|
      invariant (currentLine == []) == (j == 0)
      invariant j == 0 ==> done == []
      invariant currentLength == |Join(currentLine)|
      invariant Wrap(paragraph[..j], width) == if j == 0 then [] else done + [currentLine]
      invariant lines == Lines(done, align, width)
    {
      var word := paragraph[j];
      WrapSnoc(paragraph, j, width);
      var potentialLength;
      if currentLine != [] {
        potentialLength := currentLength + 1 + |word|;
      } else {
        potentialLength := |word|;
      }

      if potentialLength > width && currentLine != [] {
        var line := FrameLine(currentLine, align, width);
        lines := lines + [line];
        LinesSnoc(done, currentLine, align, width);
        StepBreaks(done, currentLine, word, width);
        done := done + [currentLine];
        currentLine := [word];
        currentLength := |word|;
      } else {
        JoinSnoc(currentLine, word);
        StepExtends(done, currentLine, word, width);
        currentLine := currentLine + [word];
        currentLength := potentialLength;
      }
    }
    assert paragraph[..|paragraph|] == paragraph;

    if currentLine != [] {
      var line := FrameLine(currentLine, align, width);
      lines := lines + [line];
      LinesSnoc(done, currentLine, align, width);
    }
  }

  lemma BodySnoc(paragraphs: seq<seq<string>>, aligns: seq<string>, width: int, i: nat)
    requires i < |paragraphs| <= |aligns|
    ensures Body(paragraphs[..i + 1], aligns, width)
         == Body(paragraphs[..i], aligns, width) + Lines(Wrap(paragraphs[i], width), aligns[i], width)
  {
    assert paragraphs[..i + 1][..i] == paragraphs[..i];
  }

  /** The text of one finished line, padded per alignment and framed; the source writes this block out twice. */
  method FrameLine(currentLine: seq<string>, align: string, width: int) returns (line: string)
    ensures line == Render(currentLine, align, width)
  {
    var lineText := Join(currentLine);
    var spacesNeeded := width - |lineText|;
    if align == "LEFT" {
      lineText := lineText + Repeat(' ', spacesNeeded);
    } else {
      lineText := Repeat(' ', spacesNeeded) + lineText;
    }
    line := "*" + lineText + "*";
  }

  lemma LinesSnoc(done: seq<seq<string>>, g: seq<string>, align: string, width: int)
    ensures Lines(done + [g], align, width) == Lines(done, align, width) + [Render(g, align, width)]
  {
    assert (done + [g])[..|done|] == done;
  }

  /** A word that does not fit after the current line starts a new one. */
  lemma StepBreaks(done: seq<seq<string>>, line: seq<string>, w: string, width: int)
    requires line != [] && |Join(line)| + 1 + |w| > width
    ensures Step(done + [line], w, width) == done + [line] + [[w]]
  {
    assert Last(done + [line]) == line;
  }

  /** A word that fits goes onto the current line; the first word of a paragraph opens its first line. */
  lemma StepExtends(done: seq<seq<string>>, line: seq<string>, w: string, width: int)
    requires line == [] ==> done == []
    requires line != [] ==> |Join(line)| + 1 + |w| <= width
    ensures Step(if line == [] then [] else done + [line], w, width) == done + [line + [w]]
  {
    if line == [] {
      assert line + [w] == [w];
    } else {
      assert (done + [line])[..|done|] == done;
      assert Last(done + [line]) == line;
    }
  }

  lemma WrapSnoc(words: seq<string>, j: nat, width: int)
    requires j < |words|
    ensures Wrap(words[..j + 1], width) == Step(Wrap(words[..j], width), words[j], width)
  {
    assert words[..j + 1][..j] == words[..j];
  }

  /** Joining one more word onto a non-empty line adds a space and the word. */
  lemma JoinSnoc(words: seq<string>, w: string)
    ensures words != [] ==> Join(words + [w]) == Join(words) + " " + w
    ensures words == [] ==> Join(words + [w]) == w
  {
    assert (words + [w])[..|words|] == words;
  }

  // ------------------------------------------------------------------
  // Properties of the layout

  /** Concatenating line groups, first to last. */
  function Flatten(groups: seq<seq<string>>): seq<string>
    decreases |groups|
  {
    if groups == [] then [] else Flatten(groups[..|groups| - 1]) + Last(groups)
  }

  /**
   * The lines of a paragraph hold its words, in order, none lost or repeated; no
   * line is empty.
   */
  lemma {:induction false} WrapKeepsWords(words: seq<string>, width: int)
    ensures Flatten(Wrap(words, width)) == words
    ensures forall k | 0 <= k < |Wrap(words, width)| :: Wrap(words, width)[k] != []
    decreases |words|
  {
    if words != [] {
      var n := |words| - 1;
      var prev := Wrap(words[..n], width);
      WrapKeepsWords(words[..n], width);
      assert words == words[..n] + [words[n]];
      var w := words[n];
      if prev == [] {
        assert Wrap(words, width) == [[w]];
        assert Flatten([[w]]) == Flatten([]) + [w];
      } else if |Join(Last(prev))| + 1 + |w| > width {
        var next := prev + [[w]];
        assert next[..|next| - 1] == prev;
      } else {
        var init := prev[..|prev| - 1];
        var next := init + [Last(prev) + [w]];
        assert next[..|next| - 1] == init;
        assert prev[..|prev| - 1] == init;
        assert Flatten(prev) == Flatten(init) + Last(prev);
        assert Flatten(next) == Flatten(init) + (Last(prev) + [w]);
      }
    }
  }

  /** Only a line holding a single word can be longer than the width. */
  lemma {:induction false} WrapOverlongIsSingle(words: seq<string>, width: int)
    ensures forall k | 0 <= k < |Wrap(words, width)| && |Join(Wrap(words, width)[k])| > width ::
      |Wrap(words, width)[k]| == 1
    decreases |words|
  {
    if words != [] {
      var n := |words| - 1;
      var prev := Wrap(words[..n], width);
      WrapOverlongIsSingle(words[..n], width);
      var w := Last(words);
      var g := Wrap(words, width);
      if prev == [] {
        assert g == [[w]];
      } else if |Join(Last(prev))| + 1 + |w| > width {
        assert g == prev + [[w]];
        forall k | 0 <= k < |g| && |Join(g[k])| > width ensures |g[k]| == 1 {
          if k < |prev| {
            assert g[k] == prev[k];
          }
        }
      } else {
        var last := Last(prev);
        assert g == prev[..|prev| - 1] + [last + [w]];
        WrapKeepsWords(words[..n], width);
        JoinSnoc(last, w);
        forall k | 0 <= k < |g| && |Join(g[k])| > width ensures |g[k]| == 1 {
          if k < |g| - 1 {
            assert g[k] == prev[k];
          }
        }
      }
    }
  }

  /** Line `next` opens with a word that, after a space, would not have fitted at the end of line `prev`. */
  predicate Breaks(prev: seq<string>, next: seq<string>, width: int) {
    next != [] && |Join(prev)| + 1 + |next[0]| > width
  }

  /** Greedy: every line after the first starts only because its first word did not fit on the line before. */
  lemma {:induction false} WrapIsGreedy(words: seq<string>, width: int)
    ensures forall k | 0 < k < |Wrap(words, width)| :: Breaks(Wrap(words, width)[k - 1], Wrap(words, width)[k], width)
    decreases |words|
  {
    if words != [] {
      var n := |words| - 1;
      var prev := Wrap(words[..n], width);
      WrapIsGreedy(words[..n], width);
      var w := Last(words);
      var g := Wrap(words, width);
      if prev == [] {
        assert g == [[w]];
      } else if |Join(Last(prev))| + 1 + |w| > width {
        assert g == prev + [[w]];
        forall k | 0 < k < |g| ensures Breaks(g[k - 1], g[k], width) {
          if k < |prev| {
            assert g[k - 1] == prev[k - 1] && g[k] == prev[k];
            assert Breaks(prev[k - 1], prev[k], width);
          } else {
            assert g[k - 1] == Last(prev) && g[k] == [w];
          }
        }
      } else {
        var last := Last(prev);
        assert g == prev[..|prev| - 1] + [last + [w]];
        forall k | 0 < k < |g| ensures Breaks(g[k - 1], g[k], width) {
          assert g[k - 1] == prev[k - 1];
          assert Breaks(prev[k - 1], prev[k], width);
          if k < |g| - 1 {
            assert g[k] == prev[k];
          } else {
            WrapKeepsWords(words[..n], width);
            assert prev[k] == last && last != [];
            assert g[k][0] == last[0];
          }
        }
      }
    }
  }

  /** When no word is longer than the width, every line fits within it. */
  lemma WrapFits(words: seq<string>, width: int)
    requires forall i | 0 <= i < |words| :: |words[i]| <= width
    ensures forall k | 0 <= k < |Wrap(words, width)| :: |Join(Wrap(words, width)[k])| <= width
  {
    var g := Wrap(words, width);
    WrapOverlongIsSingle(words, width);
    WrapKeepsWords(words, width);
    forall k | 0 <= k < |g| ensures |Join(g[k])| <= width {
      FlattenHolds(g, k, 0);
      assert |g[k]| == 1 ==> Join(g[k]) == g[k][0];
    }
  }

  /** Every word of every group appears in the flattened sequence. */
  lemma {:induction false} FlattenHolds(groups: seq<seq<string>>, k: nat, i: nat)
    requires k < |groups| && i < |groups[k]|
    ensures groups[k][i] in Flatten(groups)
    decreases |groups|
  {
    var n := |groups| - 1;
    if k < n {
      FlattenHolds(groups[..n], k, i);
      assert groups[..n][k] == groups[k];
    } else {
      assert groups[k][i] in Last(groups);
    }
  }

  /** A framed line begins and ends with `*`; it is `width + 2` long when its text fits. */
  lemma RenderShape(words: seq<string>, align: string, width: int)
    ensures var line := Render(words, align, width);
      && |line| >= 2 && line[0] == '*' && line[|line| - 1] == '*'
      && (|Join(words)| <= width ==> |line| == width + 2)
  {
    RepeatShape(' ', width - |Join(words)|);
  }

  /**
   * Alignment: for "LEFT" the text comes right after the opening `*` and only spaces
   * follow it; for any other value only spaces precede it and it ends at the closing `*`.
   */
  lemma RenderAlignment(words: seq<string>, align: string, width: int)
    ensures var line := Render(words, align, width);
      var text := Join(words);
      var pad := |line| - 2 - |text|;
      && pad >= 0
      && (align == "LEFT" ==>
            line[1..1 + |text|] == text && forall i | 1 + |text| <= i < |line| - 1 :: line[i] == ' ')
      && (align != "LEFT" ==>
            line[1 + pad..|line| - 1] == text && forall i | 1 <= i < 1 + pad :: line[i] == ' ')
  {
    var text := Join(words);
    var spaces := Repeat(' ', width - |text|);
    RepeatShape(' ', width - |text|);
    var line := Render(words, align, width);
    if align == "LEFT" {
      assert line == "*" + text + spaces + "*";
      assert line[1..1 + |text|] == text;
      forall i | 1 + |text| <= i < |line| - 1 ensures line[i] == ' ' {
        assert line[i] == spaces[i - 1 - |text|];
      }
    } else {
      assert line == "*" + spaces + text + "*";
      assert line[1 + |spaces|..|line| - 1] == text;
      forall i | 1 <= i < 1 + |spaces| ensures line[i] == ' ' {
        assert line[i] == spaces[i - 1];
      }
    }
  }

  /** The number of line groups over all paragraphs. */
  function GroupCount(paragraphs: seq<seq<string>>, width: int): nat
    decreases |paragraphs|
  {
    if paragraphs == [] then 0
    else GroupCount(paragraphs[..|paragraphs| - 1], width) + |Wrap(Last(paragraphs), width)|
  }

  /**
   * The box is the two borders around one line per line group, and an empty
   * paragraph contributes no line.
   */
  lemma {:induction false} LayoutSize(paragraphs: seq<seq<string>>, aligns: seq<string>, width: int)
    requires |paragraphs| <= |aligns|
    ensures |Layout(paragraphs, aligns, width)| == 2 + GroupCount(paragraphs, width)
    ensures Layout(paragraphs, aligns, width)[0] == Border(width)
    ensures Layout(paragraphs, aligns, width)[|Layout(paragraphs, aligns, width)| - 1] == Border(width)
    ensures forall i | 0 <= i < |paragraphs| && paragraphs[i] == [] :: Wrap(paragraphs[i], width) == []
    decreases |paragraphs|
  {
    BodySize(paragraphs, aligns, width);
  }

  lemma {:induction false} BodySize(paragraphs: seq<seq<string>>, aligns: seq<string>, width: int)
    requires |paragraphs| <= |aligns|
    ensures |Body(paragraphs, aligns, width)| == GroupCount(paragraphs, width)
    decreases |paragraphs|
  {
    if paragraphs != [] {
      BodySize(paragraphs[..|paragraphs| - 1], aligns, width);
      LinesIndex(Wrap(Last(paragraphs), width), aligns[|paragraphs| - 1], width);
    }
  }

  /** A line framed by `*` on both sides. */
  predicate Framed(line: string) {
    |line| >= 2 && line[0] == '*' && line[|line| - 1] == '*'
  }

  /** Every line between the borders begins and ends with `*`. */
  lemma {:induction false} BodyFramed(paragraphs: seq<seq<string>>, aligns: seq<string>, width: int)
    requires |paragraphs| <= |aligns|
    ensures forall k | 0 <= k < |Body(paragraphs, aligns, width)| :: Framed(Body(paragraphs, aligns, width)[k])
    decreases |paragraphs|
  {
    if paragraphs != [] {
      var n := |paragraphs| - 1;
      BodyFramed(paragraphs[..n], aligns, width);
      var groups := Wrap(paragraphs[n], width);
      var lines := Lines(groups, aligns[n], width);
      LinesIndex(groups, aligns[n], width);
      var head := Body(paragraphs[..n], aligns, width);
      var body := Body(paragraphs, aligns, width);
      assert body == head + lines;
      forall k | 0 <= k < |body| ensures Framed(body[k]) {
        if k < |head| {
          assert body[k] == head[k];
        } else {
          assert body[k] == lines[k - |head|];
          RenderShape(groups[k - |head|], aligns[n], width);
        }
      }
    }
  }

  /** When no word is longer than the width, every line between the borders is exactly `width + 2` long. */
  lemma {:induction false} BodyWidth(paragraphs: seq<seq<string>>, aligns: seq<string>, width: int)
    requires |paragraphs| <= |aligns|
    requires forall p, i | 0 <= p < |paragraphs| && 0 <= i < |paragraphs[p]| :: |paragraphs[p][i]| <= width
    ensures forall k | 0 <= k < |Body(paragraphs, aligns, width)| :: |Body(paragraphs, aligns, width)[k]| == width + 2
    decreases |paragraphs|
  {
    if paragraphs != [] {
      var n := |paragraphs| - 1;
      var init := paragraphs[..n];
      forall p, i | 0 <= p < |init| && 0 <= i < |init[p]| ensures |init[p][i]| <= width {
        assert init[p] == paragraphs[p];
      }
      BodyWidth(init, aligns, width);
      var groups := Wrap(paragraphs[n], width);
      var lines := Lines(groups, aligns[n], width);
      LinesIndex(groups, aligns[n], width);
      forall i | 0 <= i < |paragraphs[n]| ensures |paragraphs[n][i]| <= width {
      }
      WrapFits(paragraphs[n], width);
      var head := Body(init, aligns, width);
      var body := Body(paragraphs, aligns, width);
      assert body == head + lines;
      forall k | 0 <= k < |body| ensures |body[k]| == width + 2 {
        if k < |head| {
          assert body[k] == head[k];
        } else {
          assert body[k] == lines[k - |head|];
          RenderShape(groups[k - |head|], aligns[n], width);
        }
      }
    }
  }
}
