/** What parse_line returns, told by the way in which a line is written: words made of plain and
    quoted stretches, with runs of separators between them. */
module WrittenWords {
  import opened Options
  import opened WordParser

  /** Blank, TAB, LF, VT, FF, CR */
  const BLANKS: string := [' ', '\t', '\n', 11 as char, 12 as char, '\r']

  predicate Splits(c: char, separators: string) { c in if separators == "" then BLANKS else separators }

  datatype Stretch = Plain(text: string) | InMarks(mark: char, text: string)

  predicate Fine(s: Stretch, separators: string)
  {
    match s
    case Plain(text) => forall k | 0 <= k < |text| :: text[k] != '"' && text[k] != '\'' && !Splits(text[k], separators)
    case InMarks(mark, text) => (mark == '"' || mark == '\'') && !Splits(mark, separators) && mark !in text
  }

  predicate AllFine(word: seq<Stretch>, separators: string)
  {
    forall k | 0 <= k < |word| :: Fine(word[k], separators)
  }

  /** A word as it stands in the line */
  function Shown(word: seq<Stretch>): string
  {
    if word == [] then ""
    else (match word[0] case Plain(text) => text case InMarks(mark, text) => [mark] + text + [mark]) + Shown(word[1..])
  }

  /** The same word without its quotation marks */
  function Meant(word: seq<Stretch>): string
  {
    if word == [] then "" else word[0].text + Meant(word[1..])
  }

  predicate Run(gap: string, separators: string) { forall k | 0 <= k < |gap| :: Splits(gap[k], separators) }

  /** A line of words, each behind its gap */
  function Written(words: seq<seq<Stretch>>, gaps: seq<string>): string
    requires |words| == |gaps|
  {
    if words == [] then "" else gaps[0] + Shown(words[0]) + Written(words[1..], gaps[1..])
  }

  predicate WellWritten(words: seq<seq<Stretch>>, gaps: seq<string>, separators: string)
  {
    && |words| == |gaps|
    && (forall k | 0 <= k < |words| :: AllFine(words[k], separators) && Shown(words[k]) != "")
    && (forall k | 0 <= k < |words| :: Run(gaps[k], separators))
    && (forall k | 0 < k < |words| :: gaps[k] != "")
  }

  function Meanings(words: seq<seq<Stretch>>): (t: seq<string>)
    ensures |t| == |words| && forall k | 0 <= k < |t| :: t[k] == Meant(words[k])
  {
    if words == [] then [] else [Meant(words[0])] + Meanings(words[1..])
  }

  // ----------------------------------------------------------- reading one word

  lemma SplitsIs(c: char, separators: string)
    ensures IsSeparator(c, separators) == Splits(c, separators)
  {
  }

  /** Between position i and j the line holds s. */
  predicate At(line: string, i: nat, s: string) { i + |s| <= |line| && line[i..i + |s|] == s }

  lemma AtParts(line: string, i: nat, s: string, t: string)
    ensures At(line, i, s + t) <==> At(line, i, s) && At(line, i + |s|, t)
  {
    if i + |s| + |t| <= |line| {
      var u := line[i..i + |s| + |t|];
      assert u[..|s|] == line[i..i + |s|];
      assert u[|s|..] == line[i + |s|..i + |s| + |t|];
      assert u == u[..|s|] + u[|s|..];
      if u == s + t {
        assert u[..|s|] == s && u[|s|..] == t;
      }
    }
  }

  lemma AtBound(line: string, i: nat, s: string)
    requires At(line, i, s)
    ensures i + |s| <= |line|
  {
  }

  lemma AtIndex(line: string, i: nat, s: string, k: nat)
    requires At(line, i, s) && k < |s|
    ensures line[i + k] == s[k]
  {
    assert line[i..i + |s|][k] == s[k];
  }

  /** What follows a plain stretch is read behind it. */
  lemma {:induction false} PlainStretch(line: string, i: nat, text: string, separators: string)
    requires At(line, i, text) && Fine(Plain(text), separators)
    ensures Joined(Word(line, i, separators), text, Word(line, i + |text|, separators))
    decreases |text|
  {
    hide Word; hide Joined; hide IsSeparator; hide Splits;
    if text == "" {
      JoinNothing(Word(line, i, separators));
    } else {
      AtIndex(line, i, text, 0);
      assert text == [text[0]] + text[1..];
      AtParts(line, i, [text[0]], text[1..]);
      SplitsIs(line[i], separators);
      WordStep(line, i, separators);
      assert forall k | 0 <= k < |text[1..]| :: text[1..][k] == text[k + 1];
      PlainStretch(line, i + 1, text[1..], separators);
      JoinMore(Word(line, i, separators), [text[0]], text[1..], Word(line, i + 1, separators),
               Word(line, i + |text|, separators));
    }
  }

  lemma QuotedStretch(line: string, i: nat, mark: char, text: string, separators: string)
    requires At(line, i, [mark] + text + [mark]) && Fine(InMarks(mark, text), separators)
    ensures Joined(Word(line, i, separators), text, Word(line, i + |text| + 2, separators))
  {
    hide Word; hide Joined; hide IsSeparator; hide Splits;
    var j := i + 1 + |text|;
    AtParts(line, i, [mark] + text, [mark]);
    AtParts(line, i, [mark], text);
    AtIndex(line, i, [mark], 0);
    AtIndex(line, j, [mark], 0);
    forall k | i + 1 <= k < j
      ensures line[k] != mark
    {
      AtIndex(line, i + 1, text, k - i - 1);
    }
    FindFirst(line, i + 1, j, mark);
    SplitsIs(line[i], separators);
    WordStep(line, i, separators);
  }

  /** A whole word, and what follows it */
  lemma {:induction false} StretchesRead(line: string, i: nat, word: seq<Stretch>, separators: string)
    requires AllFine(word, separators) && At(line, i, Shown(word))
    ensures Joined(Word(line, i, separators), Meant(word), Word(line, i + |Shown(word)|, separators))
    decreases |word|
  {
    hide Word; hide Joined; hide Fine; hide At;
    AtBound(line, i, Shown(word));
    if word == [] {
      JoinNothing(Word(line, i, separators));
    } else {
      var s := word[0];
      var first := match s case Plain(text) => text case InMarks(mark, text) => [mark] + text + [mark];
      assert Shown(word) == first + Shown(word[1..]);
      AtParts(line, i, first, Shown(word[1..]));
      match s {
        case Plain(text) => PlainStretch(line, i, text, separators);
        case InMarks(mark, text) => QuotedStretch(line, i, mark, text, separators);
      }
      StretchesRead(line, i + |first|, word[1..], separators);
      JoinMore(Word(line, i, separators), s.text, Meant(word[1..]), Word(line, i + |first|, separators),
               Word(line, i + |Shown(word)|, separators));
    }
  }

  /** A word in front of a separator or the end of the line */
  lemma WordRead(line: string, i: nat, word: seq<Stretch>, separators: string)
    requires AllFine(word, separators) && At(line, i, Shown(word))
    requires var j := i + |Shown(word)|; j < |line| ==> Splits(line[j], separators)
    ensures Word(line, i, separators) == Some((Meant(word), i + |Shown(word)|))
  {
    hide Word; hide AllFine; hide Splits; hide IsSeparator;
    var j := i + |Shown(word)|;
    StretchesRead(line, i, word, separators);
    if j < |line| {
      SplitsIs(line[j], separators);
    }
    WordEnds(line, j, separators);
    JoinEnds(Word(line, i, separators), Meant(word), j);
  }

  // ------------------------------------------------------------ reading the line

  /** Separators in front of a word count for nothing. */
  lemma {:induction false} GapSkipped(line: string, i: nat, gap: string, n: nat, separators: string, maxWords: nat)
    requires At(line, i, gap) && Run(gap, separators)
    ensures Words(line, i, n, separators, maxWords) == Words(line, i + |gap|, n, separators, maxWords)
    decreases |gap|
  {
    hide Word; hide IsSeparator; hide Splits;
    if gap != "" {
      AtIndex(line, i, gap, 0);
      SplitsIs(line[i], separators);
      assert gap == [gap[0]] + gap[1..];
      AtParts(line, i, [gap[0]], gap[1..]);
      assert forall k | 0 <= k < |gap[1..]| :: gap[1..][k] == gap[k + 1];
      GapSkipped(line, i + 1, gap[1..], n, separators, maxWords);
    }
  }

  /** A word does not begin with a separator. */
  lemma FirstCharacter(word: seq<Stretch>, separators: string)
    requires AllFine(word, separators) && Shown(word) != ""
    ensures !Splits(Shown(word)[0], separators)
    decreases |word|
  {
    hide Splits;
    assert Fine(word[0], separators);
    if word[0] == Plain("") {
      assert Shown(word) == "" + Shown(word[1..]);
      FirstCharacter(word[1..], separators);
    }
  }

  /** One more word: it is the whole rest if the limit is reached, else what it means. */
  lemma OneWord(line: string, i: nat, word: seq<Stretch>, n: nat, separators: string, maxWords: nat)
    requires AllFine(word, separators) && Shown(word) != "" && At(line, i, Shown(word))
    requires var j := i + |Shown(word)|; j < |line| ==> Splits(line[j], separators)
    ensures var j := i + |Shown(word)|;
            Words(line, i, n, separators, maxWords)
            == if maxWords > 0 && n >= maxWords then Some([line[i..]])
               else if j == |line| then Some([Meant(word)])
               else Prepended(Meant(word), Words(line, j + 1, n + 1, separators, maxWords))
  {
    hide Word; hide AllFine; hide Splits; hide IsSeparator;
    FirstCharacter(word, separators);
    AtIndex(line, i, Shown(word), 0);
    SplitsIs(line[i], separators);
    WordRead(line, i, word, separators);
  }

  /** The words that come back if n have been found before and at most maxWords may be. */
  function Limited(words: seq<seq<Stretch>>, gaps: seq<string>, last: string, n: nat, maxWords: nat): (r: seq<string>)
    requires |words| == |gaps|
    decreases |words|
  {
    if words == [] then []
    else if maxWords > 0 && n >= maxWords then [Shown(words[0]) + Written(words[1..], gaps[1..]) + last]
    else [Meant(words[0])] + Limited(words[1..], gaps[1..], last, n + 1, maxWords)
  }

  /** A gap without its first character */
  lemma GapRest(gap: string, separators: string)
    requires gap != "" && Run(gap, separators)
    ensures gap == [gap[0]] + gap[1..] && Splits(gap[0], separators) && Run(gap[1..], separators)
  {
    hide Splits;
    assert forall k | 0 <= k < |gap[1..]| :: gap[1..][k] == gap[k + 1];
  }

  lemma WellWrittenRest(words: seq<seq<Stretch>>, gaps: seq<string>, separators: string)
    requires WellWritten(words, gaps, separators) && words != []
    ensures WellWritten(words[1..], gaps[1..], separators)
    ensures |words| > 1 ==> gaps[1..][0] != "" && Run(gaps[1..][0], separators)
    ensures AllFine(words[0], separators) && Shown(words[0]) != "" && Run(gaps[0], separators)
  {
    hide Splits; hide Run; hide AllFine; hide Shown;
    forall k | 0 <= k < |words[1..]|
      ensures AllFine(words[1..][k], separators) && Shown(words[1..][k]) != "" && Run(gaps[1..][k], separators)
    {
      assert words[1..][k] == words[k + 1] && gaps[1..][k] == gaps[k + 1];
    }
  }

  /** The line from the first word on */
  function FromWord(words: seq<seq<Stretch>>, gaps: seq<string>, last: string): string
    requires |words| == |gaps| > 0
  {
    Shown(words[0]) + Written(words[1..], gaps[1..]) + last
  }

  /** The words of a line whose first gap is given apart. */
  lemma {:induction false} LineRead(line: string, i: nat, gap: string, words: seq<seq<Stretch>>, gaps: seq<string>,
                                    last: string, n: nat, separators: string, maxWords: nat)
    requires |words| == |gaps| > 0 && WellWritten(words, gaps, separators) && Run(gap, separators)
               && Run(last, separators)
    requires At(line, i, gap + FromWord(words, gaps, last)) && i + |gap + FromWord(words, gaps, last)| == |line|
    ensures Words(line, i, n, separators, maxWords) == Some(Limited(words, gaps, last, n, maxWords))
    decreases |words|, 0
  {
    hide Words; hide Run; hide Shown; hide Meant; hide AllFine; hide Splits; hide WellWritten; hide At; hide Written;
    var p, w, tail := i + |gap|, Shown(words[0]), Written(words[1..], gaps[1..]) + last;
    var j := p + |w|;
    assert FromWord(words, gaps, last) == w + tail;
    AtParts(line, i, gap, w + tail);
    AtParts(line, p, w, tail);
    GapSkipped(line, i, gap, n, separators, maxWords);
    WellWrittenRest(words, gaps, separators);
    TailBegins(words, gaps, last, separators);
    if j < |line| {
      AtIndex(line, j, tail, 0);
    }
    OneWord(line, p, words[0], n, separators, maxWords);
    if maxWords > 0 && n >= maxWords {
      WholeRest(line, p, w + tail);
      assert w + tail == w + Written(words[1..], gaps[1..]) + last;
    } else if j == |line| {
      assert words[1..] == [];
      assert Limited(words[1..], gaps[1..], last, n + 1, maxWords) == [];
      assert [Meant(words[0])] + [] == [Meant(words[0])];
    } else {
      TailRead(line, j, words[1..], gaps[1..], last, n + 1, separators, maxWords);
    }
  }

  lemma WholeRest(line: string, i: nat, s: string)
    requires At(line, i, s) && i + |s| == |line|
    ensures line[i..] == s
  {
  }

  /** Behind a word there is a separator, if there is anything. */
  lemma TailBegins(words: seq<seq<Stretch>>, gaps: seq<string>, last: string, separators: string)
    requires WellWritten(words, gaps, separators) && words != [] && Run(last, separators)
    ensures var tail := Written(words[1..], gaps[1..]) + last;
            && (tail != "" ==> Splits(tail[0], separators))
            && (tail == "" ==> |words| == 1)
  {
    hide Splits; hide Shown; hide AllFine;
    WellWrittenRest(words, gaps, separators);
    if |words| > 1 {
      GapRest(gaps[1..][0], separators);
    } else if last != "" {
      GapRest(last, separators);
    }
  }

  /** The rest of the line behind a word, of which the first character has been passed. */
  lemma {:induction false} TailRead(line: string, j: nat, words: seq<seq<Stretch>>, gaps: seq<string>, last: string,
                                    n: nat, separators: string, maxWords: nat)
    requires WellWritten(words, gaps, separators) && Run(last, separators)
    requires words != [] ==> gaps[0] != ""
    requires At(line, j, Written(words, gaps) + last) && j + |Written(words, gaps) + last| == |line| && j < |line|
    ensures Words(line, j + 1, n, separators, maxWords) == Some(Limited(words, gaps, last, n, maxWords))
    decreases |words|, 1
  {
    hide Words; hide Run; hide Shown; hide AllFine; hide Splits; hide At;
    if words == [] {
      assert Written(words, gaps) + last == last;
      GapRest(last, separators);
      AtParts(line, j, [last[0]], last[1..]);
      hide WellWritten;
      GapSkipped(line, j + 1, last[1..], n, separators, maxWords);
      NoMoreWords(line, n, separators, maxWords);
    } else {
      var gap := gaps[0];
      GapRest(gap, separators);
      assert Written(words, gaps) + last == [gap[0]] + (gap[1..] + FromWord(words, gaps, last));
      AtParts(line, j, [gap[0]], gap[1..] + FromWord(words, gaps, last));
      hide WellWritten;
      LineRead(line, j + 1, gap[1..], words, gaps, last, n, separators, maxWords);
    }
  }

  lemma NoMoreWords(line: string, n: nat, separators: string, maxWords: nat)
    ensures Words(line, |line|, n, separators, maxWords) == Some([])
  {
  }

  /** What a limit leaves: the first words as they are meant, and as the last one the line from
      the start of the next word on, unchanged. */
  lemma {:induction false} LimitedIs(words: seq<seq<Stretch>>, gaps: seq<string>, last: string, n: nat, maxWords: nat)
    requires |words| == |gaps|
    ensures var m := if maxWords == 0 || n + |words| <= maxWords then |words| else if n >= maxWords then 0
              else maxWords - n;
            && m <= |words|
            && Limited(words, gaps, last, n, maxWords)
               == Meanings(words[..m]) + if m == |words| then [] else [FromWord(words[m..], gaps[m..], last)]
    decreases |words|
  {
    hide Shown; hide Meant; hide Written;
    if words != [] {
      var m := if maxWords == 0 || n + |words| <= maxWords then |words| else if n >= maxWords then 0 else maxWords - n;
      if m == 0 {
        assert words[0..] == words && gaps[0..] == gaps;
      } else {
        LimitedIs(words[1..], gaps[1..], last, n + 1, maxWords);
        assert words[..m][1..] == words[1..][..m - 1];
        assert words[1..][m - 1..] == words[m..] && gaps[1..][m - 1..] == gaps[m..];
        assert words[..m][0] == words[0];
      }
    }
  }

  lemma LineWords(words: seq<seq<Stretch>>, gaps: seq<string>, last: string, n: nat, separators: string, maxWords: nat)
    requires |words| == |gaps| && WellWritten(words, gaps, separators) && Run(last, separators)
    ensures Words(Written(words, gaps) + last, 0, n, separators, maxWords)
              == Some(Limited(words, gaps, last, n, maxWords))
  {
    hide Words; hide Run; hide Splits; hide AllFine; hide Shown; hide Limited; hide At;
    var line := Written(words, gaps) + last;
    WholeAt(line);
    if words == [] {
      assert line == last;
      GapSkipped(line, 0, last, n, separators, maxWords);
      NoMoreWords(line, n, separators, maxWords);
      NoWords(gaps, last, n, maxWords);
    } else {
      FirstGap(words, gaps, separators);
      assert line == gaps[0] + FromWord(words, gaps, last);
      LineRead(line, 0, gaps[0], words, gaps, last, n, separators, maxWords);
    }
  }

  lemma FirstGap(words: seq<seq<Stretch>>, gaps: seq<string>, separators: string)
    requires |words| == |gaps| > 0 && WellWritten(words, gaps, separators)
    ensures Run(gaps[0], separators)
  {
  }

  /** The line as a whole: its words, the program name before them if wanted. With a limit and
      more words, the last one is the line from the start of the next word on, unchanged. */
  lemma WrittenLine(progname: string, words: seq<seq<Stretch>>, gaps: seq<string>, last: string, separators: string,
                    maxWords: nat, withName: bool)
    requires |words| == |gaps| && WellWritten(words, gaps, separators) && Run(last, separators)
    ensures var n := if withName then 1 else 0;
            var m := if maxWords == 0 || n + |words| <= maxWords then |words| else if n >= maxWords then 0
                else maxWords - n;
            && m <= |words|
            && Expected(progname, Written(words, gaps) + last, separators, maxWords, withName)
               == Some((if withName then [progname] else []) + (Meanings(words[..m])
                       + if m == |words| then [] else [FromWord(words[m..], gaps[m..], last)]))
  {
    hide Words; hide WellWritten; hide Run; hide Written; hide Limited; hide Meanings; hide FromWord;
    var n := if withName then 1 else 0;
    LimitedIs(words, gaps, last, n, maxWords);
    LineWords(words, gaps, last, n, separators, maxWords);
  }

  /** parse_line on a line written in this way, behind a prefix. */
  method ParseWritten(progname: string, prefix: string, words: seq<seq<Stretch>>, gaps: seq<string>, last: string,
                      separators: string, maxWords: nat, withName: bool)
      returns (reply: Reply)
    requires |words| == |gaps| && WellWritten(words, gaps, separators) && Run(last, separators)
    ensures var n := if withName then 1 else 0;
            var m := if maxWords == 0 || n + |words| <= maxWords then |words| else if n >= maxWords then 0
                else maxWords - n;
            && m <= |words| && reply.Parsed?
            && |reply.argv| == n + m + (if m == |words| then 0 else 1)
            && (withName ==> Holds(reply.argv[0], progname))
            && (forall k | 0 <= k < m :: Holds(reply.argv[n + k], Meant(words[k])))
            && (m < |words| ==> Holds(reply.argv[n + m], FromWord(words[m..], gaps[m..], last)))
  {
    hide WellWritten; hide Run; hide Written; hide FromWord; hide Expected; hide Holds; hide Meant;
    var line := Written(words, gaps) + last;
    WrittenLine(progname, words, gaps, last, separators, maxWords, withName);
    reply := ParseLine(progname, prefix + line, prefix, separators, maxWords, withName);
    assert (prefix + line)[|prefix|..] == line;
  }

  lemma NoWords(gaps: seq<string>, last: string, n: nat, maxWords: nat)
    requires gaps == []
    ensures Limited([], gaps, last, n, maxWords) == []
  {
  }

  lemma WholeAt(line: string)
    ensures At(line, 0, line)
  {
  }

  /** A quotation that stays open behind some words: nothing comes back, unless the limit is
      reached before it. */
  lemma {:induction false} OpenMark(line: string, i: nat, stretches: seq<Stretch>, mark: char, n: nat,
                                    separators: string,
                                    maxWords: nat)
    requires AllFine(stretches, separators) && (mark == '"' || mark == '\'') && !Splits(mark, separators)
    requires At(line, i, Shown(stretches) + [mark]) && (maxWords == 0 || n < maxWords)
    requires forall k | i + |Shown(stretches)| < k < |line| :: line[k] != mark
    ensures Words(line, i, n, separators, maxWords) == None
  {
    hide Word; hide AllFine; hide Splits; hide IsSeparator; hide Shown;
    var j := i + |Shown(stretches)|;
    AtParts(line, i, Shown(stretches), [mark]);
    AtIndex(line, j, [mark], 0);
    SplitsIs(mark, separators);
    WordStep(line, j, separators);
    StretchesRead(line, i, stretches, separators);
    if Shown(stretches) != "" {
      FirstCharacter(stretches, separators);
      AtIndex(line, i, Shown(stretches), 0);
    }
    SplitsIs(line[i], separators);
  }
}
