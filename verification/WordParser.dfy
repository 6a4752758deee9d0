/** The word parser of frontend/frontend_pipes_xorriso.c without interpretation of
    backslashes: parse_line and Sfile_sep_make_argv. */
module WordParser {
  import opened Options

  // ------------------------------------------------------------ what words there are

  /** isspace in the C locale */
  predicate IsSpace(c: char) { c == ' ' || 9 as char <= c <= 13 as char }

  predicate IsSeparator(c: char, separators: string) { if separators == [] then IsSpace(c) else c in separators }

  predicate IsQuote(c: char) { c == '"' || c == '\'' }

  function Find(line: string, i: nat, c: char): (j: nat)
    requires i <= |line|
    ensures i <= j <= |line| && (j < |line| ==> line[j] == c) && forall k | i <= k < j :: line[k] != c
    decreases |line| - i
  {
    if i == |line| || line[i] == c then i else Find(line, i + 1, c)
  }

  /** The word from i on, and where it ends; nothing if a quotation stays open. */
  function Word(line: string, i: nat, separators: string): (r: Option<(string, nat)>)
    requires i <= |line|
    ensures r.Some? ==> i <= r.value.1 <= |line| && |r.value.0| <= r.value.1 - i
    ensures r.Some? && i < |line| && !IsSeparator(line[i], separators) ==> r.value.1 > i
    decreases |line| - i
  {
    if i == |line| || IsSeparator(line[i], separators) then Some(("", i))
    else if IsQuote(line[i]) then
      var j := Find(line, i + 1, line[i]);
      if j == |line| then None
      else
        var r :- Word(line, j + 1, separators);
        Some((line[i + 1..j] + r.0, r.1))
    else
      var r :- Word(line, i + 1, separators);
      Some(([line[i]] + r.0, r.1))
  }

  /** All words from i on, of which n have been found before. The last one allowed takes the
      whole rest of the line. */
  function Words(line: string, i: nat, n: nat, separators: string, maxWords: nat): (r: Option<seq<string>>)
    requires i <= |line|
    decreases |line| - i
  {
    if i == |line| then Some([])
    else if IsSeparator(line[i], separators) then Words(line, i + 1, n, separators, maxWords)
    else if maxWords > 0 && n >= maxWords then Some([line[i..]])
    else
      var w :- Word(line, i, separators);
      if w.1 == |line| then Some([w.0])
      else
        var rest :- Words(line, w.1 + 1, n + 1, separators, maxWords);
        Some([w.0] + rest)
  }

  // ----------------------------------------------------------------- quoting

  function Enclosed(word: string, quote: char): string { [quote] + word + [quote] }

  /** Words in quotation marks, with single blanks between them. */
  function Quoted(words: seq<string>, quotes: seq<char>): string
    requires |words| == |quotes|
  {
    if words == [] then []
    else if |words| == 1 then Enclosed(words[0], quotes[0])
    else Enclosed(words[0], quotes[0]) + " " + Quoted(words[1..], quotes[1..])
  }

  lemma FindFirst(line: string, i: nat, j: nat, c: char)
    requires i <= j < |line| && line[j] == c && forall k | i <= k < j :: line[k] != c
    ensures Find(line, i, c) == j
    decreases j - i
  {
    if i < j {
      FindFirst(line, i + 1, j, c);
    }
  }

  lemma Inside(line: string, i: nat, n: nat)
    requires i + n + 2 <= |line|
    ensures line[i..i + n + 2][1..1 + n] == line[i + 1..i + 1 + n]
  {
    var a, b := line[i..i + n + 2][1..1 + n], line[i + 1..i + 1 + n];
    forall k | 0 <= k < n
      ensures a[k] == b[k]
    {
      assert a[k] == line[i..i + n + 2][k + 1];
    }
  }

  /** One quoted word, followed by a blank or the end of the line */
  lemma QuotedWord(line: string, i: nat, word: string, quote: char)
    requires IsQuote(quote) && quote !in word
    requires i + |word| + 2 <= |line| && line[i..i + |word| + 2] == Enclosed(word, quote)
    requires i + |word| + 2 < |line| ==> line[i + |word| + 2] == ' '
    ensures Word(line, i, "") == Some((word, i + |word| + 2))
  {
    var e := line[i..i + |word| + 2];
    var j := i + 1 + |word|;
    assert line[i] == e[0] && line[j] == e[1 + |word|];
    forall k | i + 1 <= k < j
      ensures line[k] != quote
    {
      assert line[k] == e[k - i] == word[k - i - 1];
    }
    FindFirst(line, i + 1, j, quote);
    assert Word(line, j + 1, "") == Some(("", j + 1));
    Inside(line, i, |word|);
    assert Enclosed(word, quote)[1..1 + |word|] == word;
    assert word + "" == word;
  }

  /** Where the first of some quoted words is, and what follows it */
  lemma FirstQuoted(line: string, i: nat, words: seq<string>, quotes: seq<char>)
    requires |words| == |quotes| > 0 && i <= |line| && line[i..] == Quoted(words, quotes)
    ensures var next := i + |words[0]| + 2;
            && next <= |line| && line[i..next] == Enclosed(words[0], quotes[0]) && line[i] == quotes[0]
            && (if |words| == 1 then next == |line|
                else next < |line| && line[next] == ' ' && line[next + 1..] == Quoted(words[1..], quotes[1..]))
  {
    var e, next, rest := Enclosed(words[0], quotes[0]), i + |words[0]| + 2, line[i..];
    assert rest[..|e|] == e && line[i..next] == rest[..|e|] && line[i] == rest[0];
    if |words| > 1 {
      assert rest == e + " " + Quoted(words[1..], quotes[1..]);
      assert line[next] == rest[|e|];
      assert line[next + 1..] == rest[|e| + 1..];
    }
  }

  lemma {:induction false} QuotedWords(line: string, i: nat, words: seq<string>, quotes: seq<char>, n: nat)
    requires |words| == |quotes| && i <= |line| && line[i..] == Quoted(words, quotes)
    requires forall k | 0 <= k < |words| :: IsQuote(quotes[k]) && quotes[k] !in words[k]
    ensures Words(line, i, n, "", 0) == Some(words)
    decreases |words|
  {
    hide Word; hide Enclosed;
    if words != [] {
      var next := i + |words[0]| + 2;
      FirstQuoted(line, i, words, quotes);
      QuotedWord(line, i, words[0], quotes[0]);
      if |words| > 1 {
        hide Quoted;
        QuotedWords(line, next + 1, words[1..], quotes[1..], n + 1);
        assert [words[0]] + words[1..] == words;
      } else {
        assert [words[0]] == words;
      }
    }
  }

  /** Parsing inverts quoting. */
  lemma ParseQuoted(words: seq<string>, quotes: seq<char>)
    requires |words| == |quotes| && forall k | 0 <= k < |words| :: IsQuote(quotes[k]) && quotes[k] !in words[k]
    ensures Words(Quoted(words, quotes), 0, 0, "", 0) == Some(words)
  {
    var line := Quoted(words, quotes);
    assert line[0..] == line;
    QuotedWords(line, 0, words, quotes, 0);
  }

  // --------------------------------------------------------- the two-pass method

  /** The search for the closing quotation mark */
  method ClosingQuote(line: string, i: nat) returns (j: nat)
    requires i < |line|
    ensures j == Find(line, i + 1, line[i])
  {
    j := i + 1;
    while j < |line| && line[j] != line[i]
      invariant i < j <= |line| && Find(line, j, line[i]) == Find(line, i + 1, line[i])
    {
      j := j + 1;
    }
  }

  /** The inner loop of Sfile_sep_make_argv: characters outside quotation marks stay between
      start and cpt until they are copied to buf. */
  method NextWord(line: string, from: nat, separators: string) returns (ok: bool, buf: string, cpt: nat)
    requires from <= |line|
    ensures ok == Word(line, from, separators).Some?
    ensures ok ==> (buf, cpt) == Word(line, from, separators).value
  {
    hide Word; hide Joined; hide IsSeparator; hide IsQuote;
    ghost var whole := Word(line, from, separators);
    buf := "";
    var start := from;
    cpt := from;
    JoinNothing(whole);
    assert buf + line[start..cpt] == "";
    while cpt < |line| && !IsSeparator(line[cpt], separators)
      invariant from <= start <= cpt <= |line|
      invariant Joined(whole, buf + line[start..cpt], Word(line, cpt, separators))
      decreases |line| - cpt
    {
      ghost var before := buf + line[start..cpt];
      WordStep(line, cpt, separators);
      if IsQuote(line[cpt]) {
        var end := ClosingQuote(line, cpt);
        if end == |line| {
          JoinFails(whole, before);
          return false, buf, cpt;
        }
        JoinMore(whole, before, line[cpt + 1..end], Word(line, cpt, separators), Word(line, end + 1, separators));
        buf := buf + line[start..cpt];
        buf := buf + line[cpt + 1..end];
        start := end + 1;
        cpt := end + 1;
        assert buf + line[start..cpt] == buf;
      } else {
        JoinMore(whole, before, [line[cpt]], Word(line, cpt, separators), Word(line, cpt + 1, separators));
        assert buf + line[start..cpt + 1] == before + [line[cpt]];
        cpt := cpt + 1;
      }
    }
    WordEnds(line, cpt, separators);
    buf := buf + line[start..cpt];
    JoinEnds(whole, buf, cpt);
    ok := true;
  }

  lemma WordStep(line: string, i: nat, separators: string)
    requires i < |line| && !IsSeparator(line[i], separators)
    ensures var j := Find(line, i + 1, line[i]);
            if IsQuote(line[i]) then
              if j == |line| then Word(line, i, separators).None?
              else Joined(Word(line, i, separators), line[i + 1..j], Word(line, j + 1, separators))
            else Joined(Word(line, i, separators), [line[i]], Word(line, i + 1, separators))
  {
  }

  lemma WordEnds(line: string, i: nat, separators: string)
    requires i == |line| || (i < |line| && IsSeparator(line[i], separators))
    ensures Word(line, i, separators) == Some(("", i))
  {
  }

  /** A parse result is that of the rest, with some text before it. */
  predicate Joined(whole: Option<(string, nat)>, before: string, rest: Option<(string, nat)>)
  {
    whole == if rest.None? then None else Some((before + rest.value.0, rest.value.1))
  }

  lemma JoinNothing(whole: Option<(string, nat)>)
    ensures Joined(whole, "", whole)
  {
    if whole.Some? {
      assert "" + whole.value.0 == whole.value.0;
    }
  }

  lemma JoinFails(whole: Option<(string, nat)>, before: string)
    requires Joined(whole, before, None)
    ensures whole.None?
  {
  }

  lemma JoinMore(whole: Option<(string, nat)>, before: string, part: string, middle: Option<(string, nat)>,
                 rest: Option<(string, nat)>)
    requires Joined(whole, before, middle) && Joined(middle, part, rest)
    ensures Joined(whole, before + part, rest)
  {
    if rest.Some? {
      assert before + (part + rest.value.0) == before + part + rest.value.0;
    }
  }

  lemma JoinEnds(whole: Option<(string, nat)>, before: string, i: nat)
    requires Joined(whole, before, Some(("", i)))
    ensures whole == Some((before, i))
  {
    assert before + "" == before;
  }

  /** The text held by a slot of the result, up to its end mark */
  predicate Holds(slot: array<char>, word: string)
    reads slot
  {
    |word| < slot.Length && slot[..|word|] == word && slot[|word|] == 0 as char
  }

  method StrCpy(slot: array<char>, word: string)
    requires |word| < slot.Length
    modifies slot
    ensures Holds(slot, word)
  {
    for i := 0 to |word|
      invariant slot[..i] == word[..i]
    {
      slot[i] := word[i];
    }
    assert word[..|word|] == word;
    slot[|word|] := 0 as char;
  }

  /** What the words are: the program name if wanted, and those of the line. */
  function Expected(progname: string, line: string, separators: string, maxWords: nat,
                    withName: bool): Option<seq<string>>
  {
    var words :- Words(line, 0, if withName then 1 else 0, separators, maxWords);
    Some((if withName then [progname] else []) + words)
  }

  /** One word more, or the end of the line: the body of the outer loop */
  method Advance(line: string, i: nat, n: nat, separators: string, maxWords: nat)
      returns (ok: bool, more: bool, word: string, next: nat)
    requires i <= |line|
    ensures !ok ==> Words(line, i, n, separators, maxWords).None?
    ensures ok && !more ==> Words(line, i, n, separators, maxWords) == Some([])
    ensures ok && more ==>
              && i < next <= |line| && |word| <= |line|
              && Words(line, i, n, separators, maxWords)
                  == Prepended(word, Words(line, next, n + 1, separators, maxWords))
  {
    var cpt := i;
    while cpt < |line| && IsSeparator(line[cpt], separators)
      invariant i <= cpt <= |line| && Words(line, cpt, n, separators, maxWords)
                  == Words(line, i, n, separators, maxWords)
    {
      cpt := cpt + 1;
    }
    ok, more, word, next := true, cpt < |line|, "", |line|;
    if more {
      if maxWords > 0 && n >= maxWords {
        word := line[cpt..];
        assert [word] + [] == [word];
      } else {
        ok, word, next := NextWord(line, cpt, separators);
        if ok {
          if next < |line| {
            next := next + 1;
          } else {
            assert [word] + [] == [word];
          }
        }
      }
    }
  }

  function Prepended(word: string, rest: Option<seq<string>>): Option<seq<string>>
  {
    if rest.None? then None else Some([word] + rest.value)
  }

  /** The words found so far, and what the rest of the line yields, make up the result. */
  predicate Partial(whole: Option<seq<string>>, done: seq<string>, rest: Option<seq<string>>)
  {
    whole == if rest.None? then None else Some(done + rest.value)
  }

  lemma PartialStart(progname: string, line: string, separators: string, maxWords: nat, withName: bool)
    ensures Partial(Expected(progname, line, separators, maxWords, withName), if withName then [progname] else [],
                    Words(line, 0, if withName then 1 else 0, separators, maxWords))
  {
  }

  lemma PartialNext(whole: Option<seq<string>>, done: seq<string>, word: string, rest: Option<seq<string>>)
    requires Partial(whole, done, Prepended(word, rest))
    ensures Partial(whole, done + [word], rest)
    ensures whole.Some? ==> |whole.value| > |done| && whole.value[|done|] == word
  {
    if rest.Some? {
      assert done + ([word] + rest.value) == done + [word] + rest.value;
    }
  }

  lemma PartialEnd(whole: Option<seq<string>>, done: seq<string>)
    requires Partial(whole, done, Some([]))
    ensures whole == Some(done)
  {
    assert done + [] == done;
  }

  /** The first pass: count the words and find the longest. */
  method Measure(progname: string, line: string, separators: string, maxWords: nat, withName: bool)
      returns (ok: bool, count: nat, maxl: nat)
    ensures var words := Expected(progname, line, separators, maxWords, withName);
            ok == words.Some? && (ok ==>
                count == |words.value| && forall k | 0 <= k < count :: |words.value[k]| <= maxl)
  {
    hide Words; hide Expected; hide Prepended; hide Partial;
    ghost var whole := Expected(progname, line, separators, maxWords, withName);
    ghost var done: seq<string> := if withName then [progname] else [];
    count := if withName then 1 else 0;
    maxl := if withName then |progname| else 0;
    PartialStart(progname, line, separators, maxWords, withName);
    var cpt, more := 0, true;
    while more
      invariant cpt <= |line| && count == |done|
      invariant Partial(whole, done, if more then Words(line, cpt, count, separators, maxWords) else Some([]))
      invariant forall k | 0 <= k < |done| :: |done[k]| <= maxl
      decreases |line| - cpt, more
    {
      var word, next;
      ok, more, word, next := Advance(line, cpt, count, separators, maxWords);
      if !ok {
        PartialNone(whole, done);
        return false, count, maxl;
      }
      if more {
        PartialNext(whole, done, word, Words(line, next, count + 1, separators, maxWords));
        if |word| > maxl {
          maxl := |word|;
        }
        done := done + [word];
        count := count + 1;
        cpt := next;
      }
    }
    PartialEnd(whole, done);
    ok := true;
  }

  lemma PartialNone(whole: Option<seq<string>>, done: seq<string>)
    requires Partial(whole, done, None)
    ensures whole.None?
  {
  }

  predicate Separate(argv: seq<array<char>>) { forall j, k | 0 <= j < k < |argv| :: argv[j] != argv[k] }

  /** The second pass: copy each word into its slot. */
  method Fill(progname: string, line: string, separators: string, maxWords: nat, withName: bool,
              argv: seq<array<char>>, maxl: nat)
    requires var words := Expected(progname, line, separators, maxWords, withName);
             words.Some? && |argv| == |words.value| && forall k | 0 <= k < |argv| :: |words.value[k]| <= maxl
    requires Separate(argv) && forall k | 0 <= k < |argv| :: argv[k].Length == maxl + 1
    modifies argv
    ensures var words := Expected(progname, line, separators, maxWords, withName).value;
            forall k | 0 <= k < |argv| :: Holds(argv[k], words[k])
  {
    hide Words; hide Prepended; hide Partial; hide Holds;
    ghost var whole := Expected(progname, line, separators, maxWords, withName);
    ghost var done: seq<string> := if withName then [progname] else [];
    var count := if withName then 1 else 0;
    if withName {
      assert whole.value[0] == progname;
      StrCpy(argv[0], progname);
    }
    PartialStart(progname, line, separators, maxWords, withName);
    hide Expected;
    var cpt, more := 0, true;
    while more
      invariant cpt <= |line| && 0 <= count == |done| <= |argv|
      invariant Partial(whole, done, if more then Words(line, cpt, count, separators, maxWords) else Some([]))
      invariant forall k | 0 <= k < count :: Holds(argv[k], whole.value[k])
      decreases |line| - cpt, more
    {
      var ok, word, next;
      ok, more, word, next := Advance(line, cpt, count, separators, maxWords);
      if !ok {
        PartialNone(whole, done);
        assert false;
      } else if more {
        PartialNext(whole, done, word, Words(line, next, count + 1, separators, maxWords));
        StrCpy(argv[count], word);
        done := done + [word];
        count := count + 1;
        cpt := next;
      }
    }
    PartialEnd(whole, done);
  }

  /** Sfile_sep_make_argv: all words, each in a slot of its own; false if a quotation is open. */
  method MakeArgv(progname: string, line: string, separators: string, maxWords: nat, withName: bool)
      returns (ok: bool, argv: seq<array<char>>)
    ensures var words := Expected(progname, line, separators, maxWords, withName);
            && ok == words.Some?
            && (ok ==> |argv| == |words.value| && Separate(argv) && forall k | 0 <= k < |argv| ::
                 fresh(argv[k]) && Holds(argv[k], words.value[k]))
  {
    hide Expected; hide Holds;
    argv := [];
    var count, maxl;
    ok, count, maxl := Measure(progname, line, separators, maxWords, withName);
    if !ok {
      return;
    }
    for i := 0 to count
      invariant |argv| == i && Separate(argv) && forall k | 0 <= k < i :: fresh(argv[k]) && argv[k].Length == maxl + 1
    {
      var slot := new char[maxl + 1](_ => 0 as char);
      argv := argv + [slot];
    }
    Fill(progname, line, separators, maxWords, withName, argv, maxl);
  }

  datatype Reply = NotPrefixed | OpenQuotation | Parsed(argv: seq<array<char>>)

  /** parse_line: cut off the prefix and parse what follows it. */
  method ParseLine(progname: string, line: string, prefix: string, separators: string, maxWords: nat, withName: bool)
      returns (reply: Reply)
    ensures reply.NotPrefixed? <==> !(prefix <= line)
    ensures prefix <= line ==>
              var words := Expected(progname, line[|prefix|..], separators, maxWords, withName);
              && reply.OpenQuotation? == words.None?
              && (reply.Parsed? ==>
                   && |reply.argv| == |words.value| && Separate(reply.argv)
                   && forall k | 0 <= k < |reply.argv| :: Holds(reply.argv[k], words.value[k]))
  {
    if !(prefix <= line) {
      return NotPrefixed;
    }
    var ok, argv := MakeArgv(progname, line[|prefix|..], separators, maxWords, withName);
    reply := if ok then Parsed(argv) else OpenQuotation;
  }

  /** Words without 0, each between quotation marks that it does not contain, come back as they were. */
  method ParseWhatWasQuoted(words: seq<string>, quotes: seq<char>) returns (reply: Reply)
    requires |words| == |quotes| && forall k | 0 <= k < |words| :: IsQuote(quotes[k]) && quotes[k] !in words[k]
    ensures reply.Parsed? && |reply.argv| == |words| && forall k | 0 <= k < |words| :: Holds(reply.argv[k], words[k])
  {
    var line := Quoted(words, quotes);
    ParseQuoted(words, quotes);
    reply := ParseLine("", line, "", "", 0, false);
    assert line[0..] == line && [] + words == words;
  }
}
