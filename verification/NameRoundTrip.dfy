/** Which snake_case names survive the way to camelCase and back. */
module NameRoundTrip {
  import opened NameCase

  predicate IsPlain(c: char) { IsLower(c) || IsDigit(c) }

  /** A non-empty run of lower-case letters and digits. */
  predicate IsWord(s: string) { s != "" && forall c <- s :: IsPlain(c) }

  // --------------------------------------------------- where the underscores are put

  /** Where to_snake_case separates: before a capital after a lower-case letter or digit, and before the
      last of several capitals when a lower-case letter follows it. */
  predicate IsBoundary(previous: char, rest: string)
    requires rest != ""
  {
    IsUpper(rest[0]) && (IsPlain(previous) || (IsUpper(previous) && |rest| > 1 && IsLower(rest[1])))
  }

  function Separator(previous: char, rest: string): string
    requires rest != ""
  {
    if IsBoundary(previous, rest) then "_" else ""
  }

  function Separated(previous: char, s: string): string
    decreases |s|
  {
    if s == "" then "" else Separator(previous, s) + ([ToLower(s[0])] + Separated(s[0], s[1..]))
  }

  function AcronymMark(previous: char, rest: string): string
    requires rest != ""
  {
    if IsUpper(previous) && IsUpper(rest[0]) && |rest| > 1 && IsLower(rest[1]) then "_" else ""
  }

  function AcronymMarks(previous: char, s: string): string
    decreases |s|
  {
    if s == "" then "" else AcronymMark(previous, s) + ([s[0]] + AcronymMarks(s[0], s[1..]))
  }

  function WordMark(previous: char, next: char): string {
    if IsPlain(previous) && IsUpper(next) then "_" else ""
  }

  function WordMarks(previous: char, s: string): string
    decreases |s|
  {
    if s == "" then "" else WordMark(previous, s[0]) + ([s[0]] + WordMarks(s[0], s[1..]))
  }

  /** Without a mark in front, the marked text goes on by itself. */
  lemma AcronymMarksGoOn(previous: char, s: string)
    requires s != "" && AcronymMark(previous, s) == ""
    ensures AcronymMarks(previous, s) == [s[0]] + AcronymMarks(s[0], s[1..])
  {
    hide AcronymMark;
    assert "" + ([s[0]] + AcronymMarks(s[0], s[1..])) == [s[0]] + AcronymMarks(s[0], s[1..]);
  }

  predicate EndsAcronym(s: string, n: nat) { 2 <= n < |s| && IsLower(s[n]) }

  lemma {:induction false} SplitAcronymsStep(s: string)
    requires s != ""
    ensures var n := CapitalRun(s);
            EndsAcronym(s, n) ==> SplitAcronyms(s) == s[..n - 1] + "_" + s[n - 1..n + 1] + SplitAcronyms(s[n + 1..])
    ensures !EndsAcronym(s, CapitalRun(s)) ==> SplitAcronyms(s) == [s[0]] + SplitAcronyms(s[1..])
  {
    hide CapitalRun, IsLower;
  }

  lemma {:induction false} CapitalRunStep(s: string)
    requires s != ""
    ensures CapitalRun(s) == if IsUpper(s[0]) then 1 + CapitalRun(s[1..]) else 0
  {
  }

  /** A run of three capitals or more is treated like the run without its first. */
  lemma {:induction false} LongerRun(s: string)
    requires s != "" && CapitalRun(s) != 2 && EndsAcronym(s, CapitalRun(s))
    ensures SplitAcronyms(s) == [s[0]] + SplitAcronyms(s[1..])
  {
    hide SplitAcronyms, CapitalRun;
    var n, t := CapitalRun(s), s[1..];
    CapitalRunStep(s);
    SplitAcronymsStep(s);
    SplitAcronymsStep(t);
    assert t[n - 1] == s[n];
    assert s[..n - 1] == [s[0]] + t[..n - 2];
    assert s[n - 1..n + 1] == t[n - 2..n];
    assert s[n + 1..] == t[n..];
    Regroup([s[0]], t[..n - 2], t[n - 2..n], SplitAcronyms(t[n..]));
  }

  lemma Regroup(a: string, b: string, c: string, d: string)
    ensures (a + b) + "_" + c + d == a + (b + "_" + c + d)
  {
  }

  /** Two capitals and a lower-case letter: one mark between the capitals, and none right after. */
  lemma {:induction false} ShortestRun(s: string)
    requires |s| > 2 && IsUpper(s[0]) && IsUpper(s[1]) && IsLower(s[2])
    ensures AcronymMarks(s[0], s[1..]) == "_" + ([s[1]] + ([s[2]] + AcronymMarks(s[2], s[3..])))
  {
    hide AcronymMarks;
    AcronymMarksStep(s[0], s[1..]);
    AcronymMarksStep(s[1], s[2..]);
    assert s[1..][1..] == s[2..] && s[2..][1..] == s[3..];
    assert AcronymMark(s[0], s[1..]) == "_" && AcronymMark(s[1], s[2..]) == "";
    AcronymMarksGoOn(s[1], s[2..]);
  }

  lemma {:induction false} AcronymMarksStep(previous: char, s: string)
    requires s != ""
    ensures AcronymMarks(previous, s) == AcronymMark(previous, s) + ([s[0]] + AcronymMarks(s[0], s[1..]))
  {
  }

  /** The leftmost greedy matches of the first substitution mark each acronym once, before its last capital. */
  lemma {:induction false} AcronymsAreMarked(s: string)
    requires s != ""
    ensures SplitAcronyms(s) == [s[0]] + AcronymMarks(s[0], s[1..])
    decreases |s|
  {
    hide SplitAcronyms, CapitalRun, AcronymMarks;
    var n := CapitalRun(s);
    CapitalRunStep(s);
    SplitAcronymsStep(s);
    if |s| == 1 {
      assert s[1..] == "";
      NothingToMark(s[0]);
    } else {
      CapitalRunStep(s[1..]);
      if EndsAcronym(s, n) && n == 2 {
        ShortestRun(s);
        assert s[..1] + "_" + s[1..3] + SplitAcronyms(s[3..])
            == [s[0]] + ("_" + ([s[1]] + ([s[2]] + SplitAcronyms(s[3..]))));
        if |s| > 3 {
          AcronymsAreMarked(s[3..]);
          AcronymMarksGoOn(s[2], s[3..]);
        } else {
          NothingToMark(s[2]);
        }
      } else {
        if EndsAcronym(s, n) { LongerRun(s); }
        AcronymsAreMarked(s[1..]);
        if |s| > 2 { CapitalRunStep(s[1..][1..]); }
        AcronymMarksGoOn(s[0], s[1..]);
      }
    }
  }

  lemma {:induction false} NothingToMark(previous: char)
    ensures AcronymMarks(previous, "") == "" && SplitAcronyms("") == "" && WordMarks(previous, "") == ""
        && SplitWords("") == ""
  {
  }

  lemma {:induction false} SplitWordsStep(s: string)
    requires |s| > 1
    ensures SplitWords(s) == if WordMark(s[0], s[1]) != "" then [s[0], '_', s[1]] + SplitWords(s[2..])
        else [s[0]] + SplitWords(s[1..])
  {
  }

  lemma {:induction false} WordMarksStep(previous: char, s: string)
    requires s != ""
    ensures WordMarks(previous, s) == WordMark(previous, s[0]) + ([s[0]] + WordMarks(s[0], s[1..]))
  {
  }

  lemma WordMarksGoOn(previous: char, s: string)
    requires s != "" && WordMark(previous, s[0]) == ""
    ensures WordMarks(previous, s) == [s[0]] + WordMarks(s[0], s[1..])
  {
    hide WordMark;
    assert "" + ([s[0]] + WordMarks(s[0], s[1..])) == [s[0]] + WordMarks(s[0], s[1..]);
  }

  /** The matches of the second substitution mark every capital after a lower-case letter or digit. */
  lemma {:induction false} WordsAreMarked(s: string)
    requires s != ""
    ensures SplitWords(s) == [s[0]] + WordMarks(s[0], s[1..])
    decreases |s|
  {
    hide SplitWords, WordMarks;
    if |s| == 1 {
      OneCharacter(s);
    } else {
      SplitWordsStep(s);
      WordMarksStep(s[0], s[1..]);
      assert s[1..][1..] == s[2..];
      if WordMark(s[0], s[1]) != "" {
        assert [s[0], '_', s[1]] + SplitWords(s[2..]) == [s[0]] + ("_" + ([s[1]] + SplitWords(s[2..])));
        if |s| > 2 {
          WordsAreMarked(s[2..]);
          WordMarksGoOn(s[1], s[2..]);
        } else {
          NothingToMark(s[1]);
        }
      } else {
        WordsAreMarked(s[1..]);
        WordMarksGoOn(s[0], s[1..]);
      }
    }
  }

  lemma {:induction false} OneCharacter(s: string)
    requires |s| == 1
    ensures SplitWords(s) == [s[0]] + WordMarks(s[0], s[1..])
  {
  }

  lemma LowerJoins(a: string, b: string)
    ensures LowerAll(a + b) == LowerAll(a) + LowerAll(b)
  {
  }

  /** Both substitutions together separate exactly at the boundaries. */
  lemma {:induction false} MarksTogether(previous: char, s: string)
    ensures LowerAll(WordMarks(previous, AcronymMarks(previous, s))) == Separated(previous, s)
    decreases |s|
  {
    hide WordMarks, AcronymMarks, LowerAll;
    if s == "" {
      NothingToMark(previous);
      NothingLower();
    } else {
      var later := AcronymMarks(s[0], s[1..]);
      AcronymMarksStep(previous, s);
      MarksTogether(s[0], s[1..]);
      WordMarksStep(s[0], [s[0]] + later);
      MarkedCharacter(previous, s, later);
      LowerJoins([s[0]], WordMarks(s[0], later));
      LowerJoins(Separator(previous, s), [s[0]] + WordMarks(s[0], later));
      LowerOne(s[0]);
      LowerOne('_');
      NothingLower();
    }
  }

  lemma NothingLower()
    ensures LowerAll("") == ""
  {
  }

  lemma LowerOne(c: char)
    ensures LowerAll([c]) == [ToLower(c)]
  {
  }

  lemma MarkedCharacter(previous: char, s: string, later: string)
    requires s != ""
    ensures WordMarks(previous, AcronymMark(previous, s) + ([s[0]] + later))
        == Separator(previous, s) + ([s[0]] + WordMarks(s[0], later))
  {
    hide WordMarks;
    var text := [s[0]] + later;
    assert text[1..] == later;
    if AcronymMark(previous, s) == "_" {
      var marked := "_" + text;
      assert marked[1..] == text;
      WordMarksGoOn(previous, marked);
      WordMarksGoOn('_', text);
    } else {
      assert "" + text == text;
      WordMarksStep(previous, text);
    }
  }

  /** to_snake_case, without its substitutions: lower case, with an underscore at every boundary. */
  lemma SnakeCaseSeparates(s: string)
    requires s != ""
    ensures ToSnakeCase(s) == [ToLower(s[0])] + Separated(s[0], s[1..])
  {
    hide SplitAcronyms, SplitWords, WordMarks, AcronymMarks, LowerAll;
    var marked := AcronymMarks(s[0], s[1..]);
    AcronymsAreMarked(s);
    WordsAreMarked([s[0]] + marked);
    assert ([s[0]] + marked)[1..] == marked;
    MarksTogether(s[0], s[1..]);
    LowerJoins([s[0]], WordMarks(s[0], marked));
    LowerOne(s[0]);
  }

  // ------------------------------------------------------------------ words and back

  /** The words that follow the first, each behind an underscore. */
  function Tail(words: seq<string>): string {
    if words == [] then "" else "_" + (words[0] + Tail(words[1..]))
  }

  /** The name of some words. */
  function Named(words: seq<string>): string
    requires words != []
  {
    words[0] + Tail(words[1..])
  }

  lemma {:induction false} SplitNamed(s: string)
    ensures Named(Split(s)) == s
  {
    if s != "" {
      SplitNamed(s[1..]);
      var rest := Split(s[1..]);
      assert s == [s[0]] + s[1..];
      if s[0] == '_' {
        assert ([""] + rest)[1..] == rest;
        assert Tail(rest) == "_" + (rest[0] + Tail(rest[1..]));
        assert "" + Tail(rest) == Tail(rest);
      } else {
        assert ([[s[0]] + rest[0]] + rest[1..])[1..] == rest[1..];
        assert [s[0]] + rest[0] + Tail(rest[1..]) == [s[0]] + (rest[0] + Tail(rest[1..]));
      }
    }
  }

  /** Text without capitals gets no separators. */
  lemma {:induction false} PlainIsKept(previous: char, word: string, later: string)
    requires forall c <- word :: IsPlain(c)
    ensures Separated(previous, word + later)
        == word + Separated(if word == "" then previous else word[|word| - 1], later)
    decreases |word|
  {
    hide Separated;
    if word == "" {
      assert word + later == later;
    } else {
      var s := word + later;
      assert word[0] in word;
      assert s[1..] == word[1..] + later;
      PlainIsKept(word[0], word[1..], later);
      PlainIsNoBoundary(previous, s);
      SeparatedStep(previous, s);
      var rest := Separated(if word[1..] == "" then word[0] else word[1..][|word[1..]| - 1], later);
      assert "" + ([word[0]] + (word[1..] + rest)) == word + rest;
    }
  }

  lemma {:induction false} SeparatedStep(previous: char, s: string)
    requires s != ""
    ensures Separated(previous, s) == Separator(previous, s) + ([ToLower(s[0])] + Separated(s[0], s[1..]))
    ensures Separator(previous, s) in {"", "_"}
    ensures Separated(previous, "") == ""
  {
    hide IsBoundary;
  }

  lemma PlainIsNoBoundary(previous: char, s: string)
    requires s != "" && IsPlain(s[0])
    ensures Separator(previous, s) == "" && ToLower(s[0]) == s[0]
  {
  }

  lemma LowerPlain(s: string)
    requires forall c <- s :: IsPlain(c)
    ensures LowerAll(s) == s
  {
    forall i | 0 <= i < |s| ensures LowerAll(s)[i] == s[i] { assert s[i] in s; }
  }

  /** The character a word leaves in front of the next one in camelCase. */
  function LastOf(word: string): char
    requires word != ""
  {
    if |word| == 1 then ToUpper(word[0]) else word[|word| - 1]
  }

  predicate StartsWithLetter(word: string) { word != "" && IsLower(word[0]) }

  predicate GoesOnWithLetter(word: string) { |word| > 1 && IsLower(word[1]) }

  /** Whether a word's start shows in camelCase after this character. */
  predicate Shows(previous: char, word: string) {
    StartsWithLetter(word) && (IsPlain(previous) || GoesOnWithLetter(word))
  }

  predicate AllShow(previous: char, words: seq<string>)
    decreases |words|
  {
    words == [] || (Shows(previous, words[0]) && AllShow(LastOf(words[0]), words[1..]))
  }

  lemma CapitalizedWord(previous: char, word: string, later: string)
    requires IsWord(word) && (later == "" || !IsLower(later[0]))
    requires IsPlain(previous) || IsUpper(previous)
    ensures var u := Capitalized(word) + later;
            && u != "" && u[1..] == word[1..] + later && ToLower(u[0]) == word[0] && u[0] == ToUpper(word[0])
            && (IsBoundary(previous, u) <==> Shows(previous, word))
  {
    hide LowerAll;
    LowerPlain(word[1..]);
    var u := Capitalized(word) + later;
    assert word[0] in word;
    assert u == [ToUpper(word[0])] + (word[1..] + later);
    if |word| > 1 { assert word[1] in word && u[1] == word[1]; }
  }

  lemma {:induction false} CapitalizedStart(words: seq<string>)
    requires forall w <- words :: IsWord(w)
    ensures CapitalizedAll(words) == "" || !IsLower(CapitalizedAll(words)[0])
  {
    if words != [] { assert words[0] in words && words[0][0] in words[0]; }
  }

  /** The later words come back exactly when all their starts show. */
  lemma {:induction false} WordsComeBack(previous: char, words: seq<string>)
    requires (forall w <- words :: IsWord(w)) && (IsPlain(previous) || IsUpper(previous))
    ensures Separated(previous, CapitalizedAll(words)) == Tail(words) <==> AllShow(previous, words)
    decreases |words|
  {
    hide IsBoundary, Shows, Capitalized, IsPlain, LastOf, Separated;
    if words == [] {
      SeparatedStep(previous, "_");
    } else {
      var word, later := words[0], CapitalizedAll(words[1..]);
      var u := CapitalizedAll(words);
      assert word in words;
      CapitalizedStart(words[1..]);
      CapitalizedWord(previous, word, later);
      LastCharacter(word);
      PlainIsKept(u[0], word[1..], later);
      WordsComeBack(LastOf(word), words[1..]);
      SeparatedWord(previous, u, word, later);
      SeparatedOrNot(Separator(previous, u), word, Separated(LastOf(word), later), Tail(words[1..]));
    }
  }

  lemma SeparatedWord(previous: char, u: string, word: string, later: string)
    requires u != "" && word != "" && u[1..] == word[1..] + later && ToLower(u[0]) == word[0]
    requires Separated(u[0], u[1..]) == word[1..] + Separated(LastOf(word), later)
    ensures Separated(previous, u) == Separator(previous, u) + (word + Separated(LastOf(word), later))
  {
    hide LastOf, Separator, Separated;
    SeparatedStep(previous, u);
    var after := Separated(LastOf(word), later);
    assert [word[0]] + (word[1..] + after) == word + after;
  }

  lemma LastCharacter(word: string)
    requires IsWord(word)
    ensures LastOf(word) == if word[1..] == "" then ToUpper(word[0]) else word[1..][|word[1..]| - 1]
    ensures IsPlain(LastOf(word)) || IsUpper(LastOf(word))
    ensures word != "" && forall c <- word[1..] :: IsPlain(c)
  {
    assert word[0] in word && word[|word| - 1] in word;
  }

  lemma SeparatedOrNot(separator: string, word: string, after: string, tail: string)
    requires separator in {"", "_"} && IsWord(word)
    ensures separator + (word + after) == "_" + (word + tail) <==> separator == "_" && after == tail
  {
    var left, right := separator + (word + after), "_" + (word + tail);
    assert word[0] in word;
    if separator == "" {
      assert left[0] == word[0] && right[0] == '_';
    } else if left == right {
      assert left[1 + |word|..] == after && right[1 + |word|..] == tail;
    }
  }

  /** Every later word starts with a letter, and a one-letter word that is not the last is followed by a
      word whose second character is a letter. */
  predicate Recoverable(words: seq<string>) {
    forall i :: 1 <= i < |words| ==> StartsWithLetter(words[i]) && LeadsOn(words, i)
  }

  predicate LeadsOn(words: seq<string>, i: nat)
    requires i < |words|
  {
    |words[i]| == 1 && i + 1 < |words| ==> GoesOnWithLetter(words[i + 1])
  }

  lemma {:induction false} ShowingIsRecoverable(word: string, words: seq<string>)
    requires IsWord(word) && forall w <- words :: IsWord(w)
    requires |word| == 1 ==> IsLower(word[0])
    ensures AllShow(LastOf(word), words) <==> Recoverable([word] + words) && LeadsOn([word] + words, 0)
    decreases |words|
  {
    hide GoesOnWithLetter, Recoverable;
    if words == [] {
      OneWord(word);
      assert [word] + words == [word];
    } else {
      var next, rest := words[0], words[1..];
      assert next in words && ([word] + words)[0] == word && ([word] + words)[1] == next;
      PlainLast(word);
      assert [next] + rest == words;
      RecoverableStep(word, words);
      if StartsWithLetter(next) { ShowingIsRecoverable(next, rest); }
    }
  }

  lemma OneWord(word: string)
    ensures Recoverable([word])
  {
  }

  /** A word shows after a longer one, and after a single letter when it goes on with a letter. */
  lemma PlainLast(word: string)
    requires IsWord(word) && (|word| == 1 ==> IsLower(word[0]))
    ensures IsPlain(LastOf(word)) <==> |word| > 1
  {
    assert word[|word| - 1] in word;
  }

  lemma RecoverableStep(word: string, words: seq<string>)
    requires words != []
    ensures Recoverable([word] + words) <==> StartsWithLetter(words[0]) && LeadsOn(words, 0) && Recoverable(words)
  {
    hide GoesOnWithLetter, StartsWithLetter;
    var all := [word] + words;
    forall i | 0 <= i < |words|
      ensures StartsWithLetter(all[i + 1]) && LeadsOn(all, i + 1) <==> StartsWithLetter(words[i]) && LeadsOn(words, i)
    {
      assert all[i + 1] == words[i];
    }
    assert forall i :: 1 <= i < |all| ==> all[i] == words[i - 1];
    if Recoverable(all) {
      forall i | 0 <= i < |words| ensures StartsWithLetter(words[i]) && LeadsOn(words, i) {
        assert StartsWithLetter(all[i + 1]);
      }
    } else {
      var k :| 1 <= k < |all| && !(StartsWithLetter(all[k]) && LeadsOn(all, k));
      assert !(StartsWithLetter(words[k - 1]) && LeadsOn(words, k - 1));
    }
  }

  /** A name of lower-case words comes back from camelCase exactly when its words can be told there. */
  lemma NameComesBack(s: string)
    requires forall w <- Split(s) :: IsWord(w)
    ensures ToSnakeCase(ToCamelCase(s)) == s <==> Recoverable(Split(s))
  {
    hide Split, CapitalizedAll, Separated, ToSnakeCase, AllShow, Recoverable, Tail;
    var words := Split(s);
    var first, rest := words[0], words[1..];
    assert first in words && first[0] in first && first[|first| - 1] in first;
    var camel := first + CapitalizedAll(rest);
    SnakeCaseSeparates(camel);
    assert camel[1..] == first[1..] + CapitalizedAll(rest);
    PlainIsKept(first[0], first[1..], CapitalizedAll(rest));
    var last := first[|first| - 1];
    var back := Separated(last, CapitalizedAll(rest));
    assert [first[0]] + (first[1..] + back) == first + back;
    WordsComeBack(last, rest);
    SplitNamed(s);
    assert first + back == first + Tail(rest) <==> back == Tail(rest) by {
      assert (first + back)[|first|..] == back && (first + Tail(rest))[|first|..] == Tail(rest);
    }
    FirstWordShowsAll(first, rest);
    assert words == [first] + rest;
  }

  lemma FirstWordShowsAll(first: string, rest: seq<string>)
    requires IsWord(first) && forall w <- rest :: IsWord(w)
    ensures AllShow(first[|first| - 1], rest) <==> Recoverable([first] + rest)
  {
    hide LastOf, Recoverable, GoesOnWithLetter;
    assert first[|first| - 1] in first;
    if rest == [] {
      OneWord(first);
      assert [first] + rest == [first];
    } else {
      var next, later := rest[0], rest[1..];
      assert next in rest;
      assert [next] + later == rest;
      RecoverableStep(first, rest);
      if StartsWithLetter(next) { ShowingIsRecoverable(next, later); }
    }
  }

  // ------------------------------------------------------------------ camelCase, word by word

  lemma {:induction false} SplitWord(word: string)
    requires '_' !in word
    ensures Split(word) == [word]
  {
    if word != "" {
      assert word[0] in word && forall c <- word[1..] :: c in word;
      SplitWord(word[1..]);
      assert [word[0]] + word[1..] == word;
    }
  }

  lemma {:induction false} SplitOneMore(s: string, word: string)
    requires '_' !in word
    ensures Split(s + "_" + word) == Split(s) + [word]
  {
    if s == "" {
      SplitWord(word);
      assert s + "_" + word == ['_'] + word && (['_'] + word)[1..] == word;
    } else {
      var all := s + "_" + word;
      assert all[1..] == s[1..] + "_" + word && all[0] == s[0];
      SplitOneMore(s[1..], word);
    }
  }

  lemma {:induction false} CapitalizedOneMore(components: seq<string>, word: string)
    ensures CapitalizedAll(components + [word]) == CapitalizedAll(components) + Capitalized(word)
  {
    hide Capitalized;
    if components == [] {
      assert components + [word] == [word] && CapitalizedAll([]) == "" && [word][1..] == [];
    } else {
      assert (components + [word])[1..] == components[1..] + [word];
      CapitalizedOneMore(components[1..], word);
    }
  }

  /** A word as it follows others: its first letter large and the rest small; an underscore stays where a
      word is empty. */
  predicate Appended(word: string, added: string) {
    if word == "" then added == "_"
    else |added| == |word| && added[0] == ToUpper(word[0]) && forall i | 1 <= i < |word| :: added[i] == ToLower(word[i])
  }

  /** The first word is kept as it is, and each further one is appended to the name of those before it. */
  lemma CamelCaseAppends(s: string, word: string)
    requires '_' !in word
    ensures ToCamelCase(word) == word
    ensures ToCamelCase(s) <= ToCamelCase(s + "_" + word)
    ensures Appended(word, ToCamelCase(s + "_" + word)[|ToCamelCase(s)|..])
  {
    hide Split, CapitalizedAll;
    SplitWord(word);
    assert [word][1..] == [] && CapitalizedAll([]) == "" by { CapitalizedNone(); }
    SplitOneMore(s, word);
    var components := Split(s);
    assert (components + [word])[1..] == components[1..] + [word];
    CapitalizedOneMore(components[1..], word);
    assert ToCamelCase(s + "_" + word) == ToCamelCase(s) + Capitalized(word);
  }

  lemma CapitalizedNone()
    ensures CapitalizedAll([]) == ""
  {
  }
}
