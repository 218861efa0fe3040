/** The description wrapping loop of `scripts/generate_env_example.py`. */
module EnvExample {
  import opened PythonText

  const WIDTH := 76

  // ---------- Python's str.split ----------

  predicate IsWord(w: string) {
    w != "" && forall i | 0 <= i < |w| :: !IsSpace(w[i])
  }

  /** The words of `word + s`, where `word` is the word being read. */
  function SplitFrom(word: string, s: string): seq<string>
    decreases |s|
  {
    if s == "" then (if word == "" then [] else [word])
    else if IsSpace(s[0]) then (if word == "" then [] else [word]) + SplitFrom("", s[1..])
    else SplitFrom(word + [s[0]], s[1..])
  }

  function Split(s: string): seq<string> {
    SplitFrom("", s)
  }

  lemma {:induction false} SplitGivesWords(word: string, s: string)
    requires word == "" || IsWord(word)
    ensures forall i | 0 <= i < |SplitFrom(word, s)| :: IsWord(SplitFrom(word, s)[i])
    decreases |s|
  {
    if s != "" {
      if IsSpace(s[0]) {
        SplitGivesWords("", s[1..]);
      } else {
        SplitGivesWords(word + [s[0]], s[1..]);
      }
    }
  }

  // ---------- Wrapping, as a function on words ----------

  /** The words of one line, single spaces between them. */
  function Text(line: seq<string>): string {
    if line == [] then "" else if |line| == 1 then line[0] else line[0] + " " + Text(line[1..])
  }

  /** The lines when `current` is the line being filled. */
  function WrapFrom(current: seq<string>, words: seq<string>): seq<seq<string>>
    decreases |words|
  {
    if words == [] then (if current == [] then [] else [current])
    else if |Text(current + [words[0]])| <= WIDTH then WrapFrom(current + [words[0]], words[1..])
    else (if current == [] then [] else [current]) + WrapFrom([words[0]], words[1..])
  }

  function Wrap(words: seq<string>): seq<seq<string>> {
    WrapFrom([], words)
  }

  function Texts(lines: seq<seq<string>>): seq<string> {
    seq(|lines|, i requires 0 <= i < |lines| => Text(lines[i]))
  }

  // ---------- The loop computes that function ----------

  lemma StripWord(w: string)
    requires w == "" || (!IsSpace(w[0]) && !IsSpace(w[|w| - 1]))
    ensures Strip(w) == w
    ensures w != "" ==> Strip(" " + w) == w
  {
    assert (" " + w)[1..] == w;
  }

  lemma {:induction false} TextEnds(line: seq<string>)
    requires line != [] && forall i | 0 <= i < |line| :: IsWord(line[i])
    ensures Text(line) != "" && !IsSpace(Text(line)[0]) && !IsSpace(Text(line)[|Text(line)| - 1])
  {
    if |line| > 1 { TextEnds(line[1..]); }
  }

  lemma {:induction false} TextSnoc(line: seq<string>, w: string)
    ensures Text(line + [w]) == if line == [] then w else Text(line) + " " + w
  {
    if |line| > 1 {
      assert (line + [w])[1..] == line[1..] + [w];
      TextSnoc(line[1..], w);
      assert line[0] + " " + (Text(line[1..]) + " " + w) == (line[0] + " " + Text(line[1..])) + " " + w;
    } else if |line| == 1 {
      assert (line + [w])[1..] == [w];
    }
  }

  lemma ProbeOfEmpty(w: string)
    requires w != "" && !IsSpace(w[0]) && !IsSpace(w[|w| - 1])
    ensures Strip("" + " " + w) == w
  {
    hide IsSpace, Strip;
    assert "" + " " + w == " " + w;
    StripWord(w);
  }

  lemma ProbeOfFilled(text: string, w: string)
    requires text != "" && !IsSpace(text[0]) && w != "" && !IsSpace(w[|w| - 1])
    ensures Strip(text + " " + w) == text + " " + w
  {
    hide IsSpace, Strip;
    var probe := text + " " + w;
    assert probe[0] == text[0] && probe[|probe| - 1] == w[|w| - 1];
    StripWord(probe);
  }

  /** `f"{current} {word}".strip()`. */
  lemma ProbeIsText(line: seq<string>, w: string)
    requires IsWord(w) && forall i | 0 <= i < |line| :: IsWord(line[i])
    ensures Strip(Text(line) + " " + w) == Text(line + [w])
  {
    assert line == [] ==> Text(line) == "";
    hide Text, IsSpace, Strip, IsWord;
    TextSnoc(line, w);
    WordEnds(w);
    if line == [] {
      ProbeOfEmpty(w);
    } else {
      TextEnds(line);
      ProbeOfFilled(Text(line), w);
    }
  }

  lemma WordEnds(w: string)
    requires IsWord(w)
    ensures w != "" && !IsSpace(w[0]) && !IsSpace(w[|w| - 1])
  {
  }

  lemma TextsSnoc(done: seq<seq<string>>, line: seq<string>)
    ensures Texts(done + [line]) == Texts(done) + [Text(line)]
  {
    hide Text;
  }

  lemma EmptyText(line: seq<string>)
    requires forall i | 0 <= i < |line| :: IsWord(line[i])
    ensures Text(line) == "" <==> line == []
  {
    if line != [] { TextEnds(line); }
  }

  lemma WrapStep(done: seq<seq<string>>, line: seq<string>, words: seq<string>)
    requires words != []
    ensures done + WrapFrom(line, words)
         == if |Text(line + [words[0]])| <= WIDTH then done + WrapFrom(line + [words[0]], words[1..])
            else if line == [] then done + WrapFrom([words[0]], words[1..])
            else (done + [line]) + WrapFrom([words[0]], words[1..])
  {
    hide Text;
    if |Text(line + [words[0]])| > WIDTH {
      var rest := WrapFrom([words[0]], words[1..]);
      hide WrapFrom;
      assert [] + rest == rest;
      assert done + ([line] + rest) == (done + [line]) + rest;
    }
  }

  method WrapDescription(description: string) returns (descLines: seq<string>)
    ensures descLines == Texts(Wrap(Split(description)))
  {
    var descWords := Split(description);
    SplitGivesWords("", description);
    hide IsWord, Text, Texts, Strip, Split, IsSpace, WrapFrom, SplitFrom;
    descLines := [];
    var current := "";
    ghost var done: seq<seq<string>> := [];
    ghost var line: seq<string> := [];
    assert descLines == Texts([]) && current == Text([]) by { TextOfNothing(); }
    for n := 0 to |descWords|
      invariant descLines == Texts(done) && current == Text(line)
      invariant forall i | 0 <= i < |line| :: IsWord(line[i])
      invariant done + WrapFrom(line, descWords[n..]) == Wrap(descWords)
    {
      var word := descWords[n];
      assert descWords[n..][0] == word && descWords[n..][1..] == descWords[n + 1..];
      var probe := Strip(current + " " + word);
      ProbeIsText(line, word);
      WrapStep(done, line, descWords[n..]);
      EmptyText(line);
      if |probe| > WIDTH {
        if current != "" {
          TextsSnoc(done, line);
          descLines := descLines + [current];
          done := done + [line];
        }
        current := word;
        line := [word];
        assert current == Text(line) by { TextOfNothing(); }
      } else {
        current := probe;
        line := line + [word];
      }
    }
    EmptyText(line);
    assert WrapFrom(line, descWords[|descWords|..]) == if line == [] then [] else [line] by { TextOfNothing(); }
    if current != "" {
      TextsSnoc(done, line);
      descLines := descLines + [current];
      done := done + [line];
    }
  }

  lemma TextOfNothing()
    ensures Texts([]) == [] && Text([]) == ""
    ensures forall w: string :: Text([w]) == w
    ensures forall line :: WrapFrom(line, []) == if line == [] then [] else [line]
  {
  }

  // ---------- Nothing lost, nothing too long ----------

  function Flatten(lines: seq<seq<string>>): seq<string> {
    if lines == [] then [] else lines[0] + Flatten(lines[1..])
  }

  /** A line may be over-long only when it is a single word. */
  predicate Fits(line: seq<string>) {
    line != [] && (|line| == 1 || |Text(line)| <= WIDTH)
  }

  /** Some way to break `words` into acceptable lines, in order. */
  ghost predicate IsWrapping(words: seq<string>, lines: seq<seq<string>>) {
    Flatten(lines) == words && forall i | 0 <= i < |lines| :: Fits(lines[i])
  }

  lemma {:induction false} WrapFromIsWrapping(current: seq<string>, words: seq<string>)
    requires current == [] || Fits(current)
    ensures IsWrapping(current + words, WrapFrom(current, words))
    decreases |words|
  {
    hide Text;
    if words == [] {
      assert Flatten([current][1..]) == [];
    } else if |Text(current + [words[0]])| <= WIDTH {
      WrapFromIsWrapping(current + [words[0]], words[1..]);
      assert current + words == (current + [words[0]]) + words[1..];
    } else {
      WrapFromIsWrapping([words[0]], words[1..]);
      var rest := WrapFrom([words[0]], words[1..]);
      assert [words[0]] + words[1..] == words;
      if current != [] {
        assert ([current] + rest)[1..] == rest;
      } else {
        assert [] + rest == rest;
      }
    }
  }

  /** Every word once and in order, and no line over 76 characters unless it is one single word. */
  lemma WrapIsWrapping(words: seq<string>)
    ensures IsWrapping(words, Wrap(words))
  {
    WrapFromIsWrapping([], words);
    assert [] + words == words;
  }

  lemma {:induction false} SplitWordThen(word: string, w: string, s: string)
    requires forall i | 0 <= i < |w| :: !IsSpace(w[i])
    ensures SplitFrom(word, w + s) == SplitFrom(word + w, s)
    decreases |w|
  {
    if w == "" {
      assert w + s == s && word + w == word;
    } else {
      assert (w + s)[0] == w[0] && (w + s)[1..] == w[1..] + s;
      SplitWordThen(word + [w[0]], w[1..], s);
      assert word + w == (word + [w[0]]) + w[1..];
    }
  }

  lemma {:induction false} SplitText(line: seq<string>)
    requires forall i | 0 <= i < |line| :: IsWord(line[i])
    ensures Split(Text(line)) == line
  {
    if |line| == 1 {
      SplitWordThen("", line[0], "");
      assert line[0] + "" == line[0] && "" + line[0] == line[0];
    } else if |line| > 1 {
      SplitText(line[1..]);
      var rest := " " + Text(line[1..]);
      assert Text(line) == line[0] + rest && "" + line[0] == line[0];
      SplitWordThen("", line[0], rest);
      assert rest[0] == ' ' && rest[1..] == Text(line[1..]);
      assert line == [line[0]] + line[1..];
    }
  }

  function SplitAll(texts: seq<string>): seq<string> {
    if texts == [] then [] else Split(texts[0]) + SplitAll(texts[1..])
  }

  lemma {:induction false} SplitAllTexts(lines: seq<seq<string>>)
    requires forall i | 0 <= i < |Flatten(lines)| :: IsWord(Flatten(lines)[i])
    ensures SplitAll(Texts(lines)) == Flatten(lines)
  {
    if lines != [] {
      assert forall i | 0 <= i < |lines[0]| :: lines[0][i] == Flatten(lines)[i];
      assert forall i | 0 <= i < |Flatten(lines[1..])| :: Flatten(lines[1..])[i] == Flatten(lines)[|lines[0]| + i];
      SplitText(lines[0]);
      SplitAllTexts(lines[1..]);
      assert Texts(lines)[1..] == Texts(lines[1..]);
    }
  }

  /** Reading the emitted lines back gives exactly the words of the description. */
  lemma WrappedTextReadsBack(description: string)
    ensures SplitAll(Texts(Wrap(Split(description)))) == Split(description)
  {
    SplitGivesWords("", description);
    WrapIsWrapping(Split(description));
    SplitAllTexts(Wrap(Split(description)));
  }

  // ---------- What splitting finds ----------

  /** The text is these words with white space around them, and between any two of them. */
  ghost predicate MadeOf(s: string, words: seq<string>)
    decreases |words|
  {
    if words == [] then White(s)
    else exists lead, rest :: White(lead) && s == lead + words[0] + rest && IsWord(words[0])
                              && (rest == "" || IsSpace(rest[0])) && MadeOf(rest, words[1..])
  }

  lemma {:induction false} SplitWhite(lead: string, s: string)
    requires White(lead)
    ensures Split(lead + s) == Split(s)
  {
    hide IsSpace;
    if lead == "" {
      assert lead + s == s;
    } else {
      assert (lead + s)[0] == lead[0] && (lead + s)[1..] == lead[1..] + s;
      assert lead[0] in lead;
      SplitWhite(lead[1..], s);
    }
  }

  lemma SplitFirstWord(lead: string, w: string, rest: string)
    requires White(lead) && IsWord(w) && (rest == "" || IsSpace(rest[0]))
    ensures Split(lead + w + rest) == [w] + Split(rest)
  {
    hide IsSpace;
    assert lead + w + rest == lead + (w + rest);
    SplitWhite(lead, w + rest);
    SplitWordThen("", w, rest);
    assert "" + w == w;
  }

  lemma {:induction false} FirstGap(s: string) returns (w: string, rest: string)
    ensures s == w + rest && (forall i | 0 <= i < |w| :: !IsSpace(w[i])) && (rest == "" || IsSpace(rest[0]))
    ensures s != "" && !IsSpace(s[0]) ==> w != ""
  {
    hide IsSpace;
    if s == "" || IsSpace(s[0]) {
      w, rest := "", s;
    } else {
      w, rest := FirstGap(s[1..]);
      w := [s[0]] + w;
    }
  }

  lemma {:induction false} MadeOfItsWords(s: string)
    ensures MadeOf(s, Split(s))
    decreases |s|
  {
    hide IsSpace, Lstrip;
    LstripSplits(s);
    LstripEnds(s);
    var lead, tail := s[..|s| - |Lstrip(s)|], Lstrip(s);
    if tail == "" {
      assert lead == s && s + "" == s;
      SplitWhite(s, "");
    } else {
      var w, rest := FirstGap(tail);
      assert s == lead + w + rest;
      SplitFirstWord(lead, w, rest);
      MadeOfItsWords(rest);
      assert ([w] + Split(rest))[1..] == Split(rest);
    }
  }

  lemma {:induction false} OnlyItsWords(s: string, words: seq<string>)
    requires MadeOf(s, words)
    ensures Split(s) == words
    decreases |words|
  {
    hide IsSpace, Split;
    if words == [] {
      assert s + "" == s;
      SplitWhite(s, "");
      NoWords();
    } else {
      var lead, rest :| White(lead) && s == lead + words[0] + rest && IsWord(words[0])
                        && (rest == "" || IsSpace(rest[0])) && MadeOf(rest, words[1..]);
      SplitFirstWord(lead, words[0], rest);
      OnlyItsWords(rest, words[1..]);
      hide MadeOf;
      assert words == [words[0]] + words[1..];
    }
  }

  lemma NoWords()
    ensures Split("") == []
  {
  }

  /** The words found are exactly those the text is made of, broken at all of its white space and nowhere else. */
  lemma SplitExactly(s: string, words: seq<string>)
    ensures Split(s) == words <==> MadeOf(s, words)
  {
    hide MadeOf;
    MadeOfItsWords(s);
    if MadeOf(s, words) { OnlyItsWords(s, words); }
  }

  /** The text without its white space. */
  function Ink(s: string): string {
    if s == "" then "" else (if IsSpace(s[0]) then "" else [s[0]]) + Ink(s[1..])
  }

  function InkOf(texts: seq<string>): string {
    if texts == [] then "" else Ink(texts[0]) + InkOf(texts[1..])
  }

  lemma {:induction false} InkOfWords(word: string, s: string)
    requires forall i | 0 <= i < |word| :: !IsSpace(word[i])
    ensures InkOf(SplitFrom(word, s)) == word + Ink(s)
    decreases |s|
  {
    hide IsSpace;
    InkOfWord(word);
    if s == "" {
      assert word != "" ==> [word][1..] == [];
    } else if IsSpace(s[0]) {
      InkOfWords("", s[1..]);
      var rest := SplitFrom("", s[1..]);
      assert word == "" ==> [] + rest == rest;
      assert word != "" ==> ([word] + rest)[1..] == rest;
    } else {
      InkOfWords(word + [s[0]], s[1..]);
      assert word + ([s[0]] + Ink(s[1..])) == (word + [s[0]]) + Ink(s[1..]);
    }
  }

  lemma {:induction false} InkOfWord(word: string)
    requires forall i | 0 <= i < |word| :: !IsSpace(word[i])
    ensures Ink(word) == word
  {
    hide IsSpace;
    if word != "" { InkOfWord(word[1..]); }
  }

  lemma {:induction false} InkOfBoth(a: seq<string>, b: seq<string>)
    ensures InkOf(a + b) == InkOf(a) + InkOf(b)
  {
    if a == [] {
      assert a + b == b;
    } else {
      assert (a + b)[1..] == a[1..] + b;
      InkOfBoth(a[1..], b);
    }
  }

  lemma {:induction false} InkOfLines(texts: seq<string>)
    ensures InkOf(SplitAll(texts)) == InkOf(texts)
  {
    if texts != [] {
      assert InkOf(Split(texts[0])) == Ink(texts[0]) by { InkOfWords("", texts[0]); }
      hide Split, Ink;
      InkOfBoth(Split(texts[0]), SplitAll(texts[1..]));
      InkOfLines(texts[1..]);
    }
  }

  /** The emitted lines hold the description's characters other than white space, in order. */
  lemma WrapKeepsInk(description: string)
    ensures InkOf(Texts(Wrap(Split(description)))) == Ink(description)
  {
    InkOfLines(Texts(Wrap(Split(description))));
    WrappedTextReadsBack(description);
    InkOfWords("", description);
  }

  // ---------- No wrapping uses fewer lines ----------

  lemma {:induction false} TextPrefix(line: seq<string>, n: nat)
    requires n <= |line|
    ensures |Text(line[..n])| <= |Text(line)|
    decreases |line|
  {
    if n > 1 {
      assert line[..n][1..] == line[1..][..n - 1];
      TextPrefix(line[1..], n - 1);
    } else if n == 1 {
      assert line[..1] == [line[0]];
    }
  }

  /** Dropping the first word of a text takes no more lines. */
  lemma {:induction false} DropFirstWord(words: seq<string>, lines: seq<seq<string>>) returns (fewer: seq<seq<string>>)
    requires words != [] && IsWrapping(words, lines)
    ensures IsWrapping(words[1..], fewer) && |fewer| <= |lines|
  {
    var first, rest := lines[0], lines[1..];
    assert words[0] == first[0] && words[1..] == first[1..] + Flatten(rest);
    if |first| == 1 {
      fewer := rest;
    } else {
      fewer := [first[1..]] + rest;
      assert fewer[1..] == rest;
      assert Text(first) == first[0] + " " + Text(first[1..]);
    }
  }

  lemma {:induction false} DropWords(words: seq<string>, n: nat, lines: seq<seq<string>>)
      returns (fewer: seq<seq<string>>)
    requires n <= |words| && IsWrapping(words, lines)
    ensures IsWrapping(words[n..], fewer) && |fewer| <= |lines|
    decreases n
  {
    if n == 0 {
      fewer := lines;
    } else {
      fewer := DropFirstWord(words, lines);
      fewer := DropWords(words[1..], n - 1, fewer);
      assert words[1..][n - 1..] == words[n..];
    }
  }

  /** Filling each line as far as it goes stays ahead of any other wrapping. */
  lemma {:induction false} GreedyStaysAhead(current: seq<string>, words: seq<string>, rival: seq<seq<string>>)
    requires current == [] || Fits(current)
    requires IsWrapping(current + words, rival)
    ensures |WrapFrom(current, words)| <= |rival|
    decreases |words|, |current|
  {
    if words == [] {
      if current != [] { assert rival != []; }
    } else if |Text(current + [words[0]])| <= WIDTH {
      assert current + words == (current + [words[0]]) + words[1..];
      GreedyStaysAhead(current + [words[0]], words[1..], rival);
    } else if current == [] {
      assert [] + words == [words[0]] + words[1..];
      GreedyStaysAhead([words[0]], words[1..], rival);
    } else {
      var first, rest := rival[0], rival[1..];
      assert current + words == first + Flatten(rest);
      if |first| > |current| {
        assert first[..|current| + 1] == (current + words)[..|current| + 1] == current + [words[0]];
        TextPrefix(first, |current| + 1);
      } else {
        var n := |current| - |first|;
        assert Flatten(rest) == (current + words)[|first|..] == current[|first|..] + words;
        var fewer := DropWords(Flatten(rest), n, rest);
        assert Flatten(rest)[n..] == words == [words[0]] + words[1..];
        GreedyStaysAhead([words[0]], words[1..], fewer);
      }
    }
  }

  /** No way of breaking the words into acceptable lines uses fewer lines. */
  lemma WrapIsShortest(words: seq<string>, rival: seq<seq<string>>)
    requires IsWrapping(words, rival)
    ensures |Wrap(words)| <= |rival|
  {
    assert [] + words == words;
    GreedyStaysAhead([], words, rival);
  }
}
