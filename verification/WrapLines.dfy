/** Fitting text to a graphical panel: greedy word wrap with an ellipsis on the last line
    kept, and how many lines of a plan fit. */
module WrapLines {
  import opened Text

  const ELLIPSIS: char := '\U{2026}'

  /** The words between runs of whitespace, `word` being the one in progress. */
  function WordsFrom(text: string, word: string): seq<string>
    decreases |text|
  {
    var done := if word == [] then [] else [word];
    if text == [] then done
    else if IsWhitespace(text[0]) then done + WordsFrom(text[1..], [])
    else WordsFrom(text[1..], word + [text[0]])
  }

  function Words(text: string): seq<string> {
    WordsFrom(text, [])
  }

  /** Words with single spaces between them. */
  function Join(words: seq<string>): string {
    if words == [] then []
    else if |words| == 1 then words[0]
    else Join(words[..|words| - 1]) + [' '] + words[|words| - 1]
  }

  function JoinEach(groups: seq<seq<string>>): seq<string> {
    seq(|groups|, i requires 0 <= i < |groups| => Join(groups[i]))
  }

  function Flatten(groups: seq<seq<string>>): seq<string> {
    if groups == [] then [] else groups[0] + Flatten(groups[1..])
  }

  /** What a panel measures: the width of a line of text, and how wide a line may be. */
  datatype Ruler = Ruler(measure: string -> nat, maxW: nat) {
    predicate Fits(words: seq<string>) { measure(Join(words)) <= maxW }

    /** A line the wrap may leave: it fits, or is one word that cannot be broken. */
    predicate Allowed(words: seq<string>) { |words| == 1 || (words != [] && Fits(words)) }

    /** Any contiguous part of a run of words that fits also fits. */
    ghost predicate Monotone() {
      forall words: seq<string>, i: nat, j: nat :: i < j <= |words| && Fits(words) ==> Fits(words[i..j])
    }
  }

  // ---- Greedy ----

  /** How many words the first line takes, `n` being on it already: it stops at the first that does not fit. */
  function FirstLine(r: Ruler, words: seq<string>, n: nat): (k: nat)
    requires 1 <= n <= |words|
    ensures n <= k <= |words|
    decreases |words| - n
  {
    if n < |words| && r.Fits(words[..n + 1]) then FirstLine(r, words, n + 1) else n
  }

  function Greedy(r: Ruler, words: seq<string>): seq<seq<string>>
    decreases |words|
  {
    if words == [] then []
    else
      var n := FirstLine(r, words, 1);
      [words[..n]] + Greedy(r, words[n..])
  }

  lemma {:induction false} GreedyLines(r: Ruler, words: seq<string>)
    ensures Flatten(Greedy(r, words)) == words
    ensures forall g <- Greedy(r, words) :: r.Allowed(g)
    decreases |words|
  {
    if words != [] {
      var n := FirstLine(r, words, 1);
      FirstLineAllowed(r, words, 1);
      GreedyLines(r, words[n..]);
      assert Greedy(r, words)[1..] == Greedy(r, words[n..]);
    }
  }

  lemma {:induction false} FirstLineAllowed(r: Ruler, words: seq<string>, n: nat)
    requires 1 <= n <= |words| && r.Allowed(words[..n])
    ensures r.Allowed(words[..FirstLine(r, words, n)])
    decreases |words| - n
  {
    if n < |words| && r.Fits(words[..n + 1]) {
      FirstLineAllowed(r, words, n + 1);
    }
  }

  // ---- Greedy uses the fewest lines ----

  /** The first line takes at least as many words as any line could. */
  lemma {:induction false} FirstLineLongest(r: Ruler, words: seq<string>, n: nat, m: nat)
    requires r.Monotone() && 1 <= n <= m <= |words| && r.Allowed(words[..m])
    ensures m <= FirstLine(r, words, n)
    decreases m - n
  {
    if n < m {
      assert words[..m][0..n + 1] == words[..n + 1];
      assert r.Fits(words[..n + 1]);
      FirstLineLongest(r, words, n + 1, m);
    }
  }

  lemma TailAllowed(r: Ruler, line: seq<string>, k: nat)
    requires r.Monotone() && r.Allowed(line) && k < |line|
    ensures r.Allowed(line[k..])
  {
    if |line| > 1 {
      assert r.Fits(line[k..|line|]);
      assert line[k..|line|] == line[k..];
    }
  }

  /** Fewer words never need more lines. */
  lemma {:induction false} SuffixNeedsNoMore(r: Ruler, words: seq<string>, k: nat)
    requires r.Monotone() && k <= |words|
    ensures |Greedy(r, words[k..])| <= |Greedy(r, words)|
    decreases |words|
  {
    if words == [] || k == |words| {
    } else {
      var n := FirstLine(r, words, 1);
      var tail := words[n..];
      if k >= n {
        assert words[k..] == tail[k - n..];
        SuffixNeedsNoMore(r, tail, k - n);
      } else {
        var later := words[k..];
        FirstLineAllowed(r, words, 1);
        assert later[..n - k] == words[..n][k..];
        TailAllowed(r, words[..n], k);
        FirstLineLongest(r, later, 1, n - k);
        var n' := FirstLine(r, later, 1);
        assert later[n'..] == tail[k + n' - n..];
        SuffixNeedsNoMore(r, tail, k + n' - n);
      }
    }
  }

  /** No split of the words into allowed lines uses fewer lines than the greedy one. */
  lemma {:induction false} GreedyFewest(r: Ruler, words: seq<string>, other: seq<seq<string>>)
    requires r.Monotone() && Flatten(other) == words && forall g <- other :: r.Allowed(g)
    ensures |Greedy(r, words)| <= |other|
    decreases |other|
  {
    if other != [] {
      var m := |other[0]|;
      assert other[0] in other && words[..m] == other[0] && words[m..] == Flatten(other[1..]);
      GreedyFewest(r, words[m..], other[1..]);
      FirstLineLongest(r, words, 1, m);
      var n := FirstLine(r, words, 1);
      assert words[n..] == words[m..][n - m..];
      SuffixNeedsNoMore(r, words[m..], n - m);
    }
  }

  // ---- The source's loop ----

  ghost predicate NonEmptyWords(words: seq<string>) {
    forall w <- words :: w != []
  }

  lemma {:induction false} WordsNonEmpty(text: string, word: string)
    ensures NonEmptyWords(WordsFrom(text, word))
    decreases |text|
  {
    if text != [] {
      WordsNonEmpty(text[1..], if IsWhitespace(text[0]) then [] else word + [text[0]]);
    }
  }

  lemma JoinEmpty(words: seq<string>)
    requires NonEmptyWords(words)
    ensures Join(words) == [] <==> words == []
  {
    if |words| == 1 {
      assert words[0] in words;
    }
  }

  lemma JoinExtends(words: seq<string>, word: string)
    ensures Join(words + [word]) == if words == [] then word else Join(words) + [' '] + word
  {
    assert (words + [word])[..|words|] == words;
  }

  /** The lines still to come, `open` being the line in progress. */
  function Remaining(r: Ruler, open: seq<string>, words: seq<string>): seq<seq<string>>
    decreases |words|
  {
    if words == [] then if open == [] then [] else [open]
    else if open == [] || r.Fits(open + [words[0]]) then Remaining(r, open + [words[0]], words[1..])
    else [open] + Remaining(r, [words[0]], words[1..])
  }

  lemma {:induction false} RemainingIsGreedy(r: Ruler, open: seq<string>, words: seq<string>)
    requires open != []
    ensures var all, n := open + words, FirstLine(r, open + words, |open|);
      Remaining(r, open, words) == [all[..n]] + Greedy(r, all[n..])
    decreases |words|
  {
    var all := open + words;
    if words == [] {
      assert all == open && all[..|open|] == open && all[|open|..] == [];
      assert [open] + [] == [open];
    } else {
      var next := open + [words[0]];
      assert all[..|open| + 1] == next && all[..|open|] == open && all[|open|..] == words;
      if r.Fits(next) {
        assert next + words[1..] == all;
        RemainingIsGreedy(r, next, words[1..]);
      } else {
        assert [words[0]] + words[1..] == words;
        RemainingIsGreedy(r, [words[0]], words[1..]);
      }
    }
  }

  lemma RemainingFromNothing(r: Ruler, words: seq<string>)
    ensures Remaining(r, [], words) == Greedy(r, words)
  {
    if words != [] {
      assert [] + [words[0]] == [words[0]] && [words[0]] + words[1..] == words;
      RemainingIsGreedy(r, [words[0]], words[1..]);
    }
  }

  lemma JoinEachCons(open: seq<string>, groups: seq<seq<string>>)
    ensures JoinEach([open] + groups) == [Join(open)] + JoinEach(groups)
  {
  }

  /** Wrap words onto lines, starting another when the next word does not fit. */
  method Wrap(r: Ruler, words: seq<string>) returns (lines: seq<string>)
    requires NonEmptyWords(words)
    ensures lines == JoinEach(Greedy(r, words))
  {
    lines := [];
    var cur: string := [];
    ghost var open, all := [], JoinEach(Greedy(r, words));
    RemainingFromNothing(r, words);
    for i := 0 to |words|
      invariant NonEmptyWords(open) && cur == Join(open)
      invariant lines <= all && all[|lines|..] == JoinEach(Remaining(r, open, words[i..]))
    {
      var word := words[i];
      assert word in words && word != [];
      JoinEmpty(open);
      JoinExtends(open, word);
      assert words[i..][1..] == words[i + 1..];
      var candidate := if cur == [] then word else cur + [' '] + word;
      if cur == [] || r.measure(candidate) <= r.maxW {
        cur := candidate;
        open := open + [word];
      } else {
        JoinEachCons(open, Remaining(r, [word], words[i + 1..]));
        assert all[|lines|..][0] == cur && all[|lines| + 1..] == all[|lines|..][1..];
        lines := lines + [cur];
        cur, open := word, [word];
      }
    }
    JoinEmpty(open);
    if cur != [] {
      JoinEachCons(open, []);
      assert [open] + [] == [open] && all[|lines|..] == [cur];
      lines := lines + [cur];
    }
  }

  /** `cut` is the longest prefix of `line` that fits with an ellipsis after it, or the
      ellipsis alone when none does. */
  ghost predicate Ellipsised(r: Ruler, line: string, cut: string) {
    exists n: nat :: n <= |line| && cut == line[..n] + [ELLIPSIS]
      && (n == 0 || r.measure(cut) <= r.maxW)
      && forall m :: n < m <= |line| ==> r.measure(line[..m] + [ELLIPSIS]) > r.maxW
  }

  method Ellipsise(r: Ruler, line: string) returns (cut: string)
    ensures Ellipsised(r, line, cut)
  {
    cut := line + [ELLIPSIS];
    ghost var n: nat := |line|;
    assert line[..n] == line;
    while r.measure(cut) > r.maxW
      invariant n <= |line| && cut == line[..n] + [ELLIPSIS]
      invariant forall m :: n < m <= |line| ==> r.measure(line[..m] + [ELLIPSIS]) > r.maxW
      decreases n
    {
      cut := cut[..|cut| - 1];
      assert cut == line[..n];
      if cut == [] {
        cut := cut + [ELLIPSIS];
        break;
      }
      cut := cut[..|cut| - 1] + [ELLIPSIS];
      n := n - 1;
    }
    assert n <= |line| && cut == line[..n] + [ELLIPSIS];
  }

  /** The wrapped lines, capped at `maxLines`, an ellipsis marking text left out. */
  method WrapLines(r: Ruler, text: string, maxLines: nat) returns (lines: seq<string>)
    ensures |lines| <= maxLines
    ensures var all := if Words(text) == [] then [[]] else JoinEach(Greedy(r, Words(text)));
      if |all| <= maxLines then lines == all
      else |lines| == maxLines && (maxLines > 0 ==>
        lines[..maxLines - 1] == all[..maxLines - 1] && Ellipsised(r, all[maxLines - 1], lines[maxLines - 1]))
  {
    WordsNonEmpty(text, []);
    lines := Wrap(r, Words(text));
    if lines == [] {
      lines := [[]];
    }
    if |lines| > maxLines {
      lines := lines[..maxLines];
      if lines != [] {
        var last := Ellipsise(r, lines[maxLines - 1]);
        lines := lines[..maxLines - 1] + [last];
      }
    }
  }

  // ---- Nothing is lost ----

  lemma {:induction false} JoinSplits(a: seq<string>, b: seq<string>)
    requires a != [] && b != []
    ensures Join(a + b) == Join(a) + [' '] + Join(b)
    decreases |b|
  {
    var init, last := b[..|b| - 1], b[|b| - 1];
    assert (a + b)[..|a + b| - 1] == a + init;
    if init == [] {
      assert a + init == a;
    } else {
      JoinSplits(a, init);
    }
  }

  lemma {:induction false} JoinLines(groups: seq<seq<string>>)
    requires forall g <- groups :: g != []
    ensures Join(JoinEach(groups)) == Join(Flatten(groups))
    decreases |groups|
  {
    if |groups| == 1 {
      assert groups[0] in groups && Flatten(groups[1..]) == [] && Flatten(groups) == groups[0];
    } else if |groups| > 1 {
      assert groups[0] in groups && groups[1] in groups[1..] && forall g :: g in groups[1..] ==> g in groups;
      JoinLines(groups[1..]);
      JoinSplits(groups[0], Flatten(groups[1..]));
      assert JoinEach(groups) == [Join(groups[0])] + JoinEach(groups[1..]);
      JoinSplits([Join(groups[0])], JoinEach(groups[1..]));
    }
  }

  /** Lines that were not cut, joined by spaces, are the words joined by spaces. */
  lemma WrappingKeepsText(r: Ruler, words: seq<string>)
    ensures Join(JoinEach(Greedy(r, words))) == Join(words)
  {
    GreedyLines(r, words);
    JoinLines(Greedy(r, words));
  }

  ghost predicate Solid(words: seq<string>) {
    forall w <- words :: w != [] && forall i :: 0 <= i < |w| ==> !IsWhitespace(w[i])
  }

  lemma {:induction false} WordsSolid(text: string, word: string)
    requires forall i :: 0 <= i < |word| ==> !IsWhitespace(word[i])
    ensures Solid(WordsFrom(text, word))
    decreases |text|
  {
    if text != [] {
      WordsSolid(text[1..], if IsWhitespace(text[0]) then [] else word + [text[0]]);
    }
  }

  lemma {:induction false} WordCollected(w: string, rest: string, word: string)
    requires forall i :: 0 <= i < |w| ==> !IsWhitespace(w[i])
    ensures WordsFrom(w + rest, word) == WordsFrom(rest, word + w)
    decreases |w|
  {
    if w == [] {
      assert w + rest == rest && word + w == word;
    } else {
      assert (w + rest)[1..] == w[1..] + rest && word + [w[0]] + w[1..] == word + w;
      WordCollected(w[1..], rest, word + [w[0]]);
    }
  }

  /** A word, the space after it, and the rest. */
  lemma WordThenRest(w: string, rest: string)
    requires w != [] && forall i :: 0 <= i < |w| ==> !IsWhitespace(w[i])
    ensures Words(w) == [w] && Words(w + [' '] + rest) == [w] + Words(rest)
  {
    var after := [' '] + rest;
    WordCollected(w, [], []);
    WordCollected(w, after, []);
    assert w + [] == w && [] + w == w && w + [' '] + rest == w + after && after[1..] == rest;
  }

  lemma {:induction false} WordsOfJoin(words: seq<string>)
    requires Solid(words)
    ensures Words(Join(words)) == words
    decreases |words|
  {
    if words != [] {
      var w, rest := words[0], words[1..];
      assert w in words && [w] + rest == words && forall v :: v in rest ==> v in words;
      WordThenRest(w, Join(rest));
      if rest != [] {
        JoinSplits([w], rest);
        assert Join([w]) == w;
        WordsOfJoin(rest);
      }
    }
  }

  /** Splitting the untruncated lines again gives back the words of the text. */
  lemma WordsSurvive(r: Ruler, text: string)
    ensures Words(Join(JoinEach(Greedy(r, Words(text))))) == Words(text)
  {
    WrappingKeepsText(r, Words(text));
    WordsSolid(text, []);
    WordsOfJoin(Words(text));
  }

  /** A text without its blanks. */
  function NoBlanks(text: string): string {
    if text == [] then [] else (if IsWhitespace(text[0]) then [] else [text[0]]) + NoBlanks(text[1..])
  }

  function Together(words: seq<string>): string {
    if words == [] then [] else words[0] + Together(words[1..])
  }

  /** The words run together are the text without its blanks: nothing is lost or added. */
  lemma {:induction false} WordsAreText(text: string, word: string)
    ensures Together(WordsFrom(text, word)) == word + NoBlanks(text)
    decreases |text|
  {
    if text != [] {
      if IsWhitespace(text[0]) {
        WordsAreText(text[1..], []);
        assert word == [] ==> [] + WordsFrom(text[1..], []) == WordsFrom(text[1..], []);
      } else {
        WordsAreText(text[1..], word + [text[0]]);
        assert word + [text[0]] + NoBlanks(text[1..]) == word + ([text[0]] + NoBlanks(text[1..]));
      }
    } else if word != [] {
      assert [word][1..] == [] && word + [] == word;
    }
  }

  /** They are split exactly at the blanks, whichever and however many. */
  lemma {:induction false} WordsSplitAtBlank(a: string, blank: char, b: string, word: string)
    requires IsWhitespace(blank)
    ensures WordsFrom(a + [blank] + b, word) == WordsFrom(a, word) + Words(b)
    decreases |a|
  {
    var text := a + [blank] + b;
    if a == [] {
      assert text[0] == blank && text[1..] == b;
    } else {
      assert text[0] == a[0] && text[1..] == a[1..] + [blank] + b;
      WordsSplitAtBlank(a[1..], blank, b, if IsWhitespace(a[0]) then [] else word + [a[0]]);
      if IsWhitespace(a[0]) {
        var done := if word == [] then [] else [word];
        assert done + WordsFrom(a[1..], []) + Words(b) == done + (WordsFrom(a[1..], []) + Words(b));
      }
    }
  }

  // ---- How many lines fit ----

  datatype LineMetrics = LineMetrics(lineHeight: int, inkHeight: int)

  function Used(lines: seq<LineMetrics>, n: nat): int
    requires n <= |lines|
  {
    if n == 0 then 0 else Used(lines, n - 1) + lines[n - 1].lineHeight
  }

  /** Each line but the first has room for its ink below the lines above it. */
  ghost predicate AllFit(lines: seq<LineMetrics>, avail: int, n: nat)
    requires n <= |lines|
  {
    forall i :: 0 < i < n ==> Used(lines, i) + lines[i].inkHeight <= avail
  }

  /** The longest prefix that fits, and at least one line of a plan that has any. */
  method FitLineCount(lines: seq<LineMetrics>, avail: int) returns (kept: nat)
    ensures kept <= |lines| && AllFit(lines, avail, kept) && (lines != [] ==> kept > 0)
    ensures kept < |lines| ==> !AllFit(lines, avail, kept + 1)
  {
    var used := 0;
    kept := 0;
    while kept < |lines|
      invariant kept <= |lines| && used == Used(lines, kept) && AllFit(lines, avail, kept)
    {
      var m := lines[kept];
      if kept > 0 && used + m.inkHeight > avail {
        break;
      }
      used := used + m.lineHeight;
      kept := kept + 1;
    }
  }
}
