/** Splitting a text into overlapping chunks of whole words.

  A text is a sequence of UTF-16 code units, so that its length is the length the source measures.
*/
module TextChunker {
  import opened Wrappers

  type CodeUnit = c: int | 0 <= c < 0x1_0000

  type Text = seq<CodeUnit>

  const SPACE: CodeUnit := 0x20

  /** The white space that `trim` and `\s` recognise. */
  predicate IsSpace(c: CodeUnit) {
    || 0x09 <= c <= 0x0D || c == 0x20 || c == 0xA0 || c == 0x1680 || 0x2000 <= c <= 0x200A
    || c == 0x2028 || c == 0x2029 || c == 0x202F || c == 0x205F || c == 0x3000 || c == 0xFEFF
  }

  /** It is 25 code units and no others: five controls, the spaces, the two separators, and the byte order mark. */
  lemma WhiteSpaceIs(c: CodeUnit)
    ensures IsSpace(c) <==>
            c as int in {0x09, 0x0A, 0x0B, 0x0C, 0x0D, 0x20, 0xA0, 0x1680, 0x2000, 0x2001, 0x2002, 0x2003, 0x2004, 0x2005, 0x2006, 0x2007, 0x2008,
                         0x2009, 0x200A, 0x2028, 0x2029, 0x202F, 0x205F, 0x3000, 0xFEFF}
  {
  }

  predicate IsWord(w: Text) {
    w != [] && forall c <- w :: !IsSpace(c)
  }

  // ----- Normalisation and words

  function TrimStart(s: Text): (r: Text)
    ensures r == [] || !IsSpace(r[0])
  {
    if s != [] && IsSpace(s[0]) then TrimStart(s[1..]) else s
  }

  function TrimEnd(s: Text): (r: Text)
    ensures r <= s
    ensures r == [] || !IsSpace(r[|r| - 1])
  {
    if s != [] && IsSpace(s[|s| - 1]) then TrimEnd(s[..|s| - 1]) else s
  }

  /** Every maximal run of white space becomes one space. */
  function Collapse(s: Text): Text {
    if s == [] then []
    else if !IsSpace(s[0]) then [s[0]] + Collapse(s[1..])
    else if |s| > 1 && IsSpace(s[1]) then Collapse(s[1..])
    else [SPACE] + Collapse(s[1..])
  }

  function Normalize(s: Text): Text {
    Collapse(TrimEnd(TrimStart(s)))
  }

  /** `split(' ')`. */
  function Split(s: Text): (r: seq<Text>)
    ensures r != []
  {
    if s == [] then [[]]
    else
      var rest := Split(s[1..]);
      if s[0] == SPACE then [[]] + rest else [[s[0]] + rest[0]] + rest[1..]
  }

  /** The words of a text read off directly: its maximal runs without white space. */
  function Words(s: Text): (r: seq<Text>)
    ensures s != [] && !IsSpace(s[0]) ==> r != []
  {
    if s == [] then []
    else if IsSpace(s[0]) then Words(s[1..])
    else if |s| > 1 && !IsSpace(s[1]) then [[s[0]] + Words(s[1..])[0]] + Words(s[1..])[1..]
    else [[s[0]]] + Words(s[1..])
  }

  lemma {:induction false} WordsAreWords(s: Text)
    ensures forall w <- Words(s) :: IsWord(w)
  {
    if s != [] {
      WordsAreWords(s[1..]);
      if !IsSpace(s[0]) && |s| > 1 && !IsSpace(s[1]) {
        assert Words(s[1..])[0] in Words(s[1..]);
      }
    }
  }

  lemma {:induction false} WordsOfTrimStart(s: Text)
    ensures Words(TrimStart(s)) == Words(s)
  {
    if s != [] && IsSpace(s[0]) {
      WordsOfTrimStart(s[1..]);
    }
  }

  lemma {:induction false} WordsBeforeSpace(s: Text, c: CodeUnit)
    requires IsSpace(c)
    ensures Words(s + [c]) == Words(s)
  {
    if s == [] {
      assert (s + [c])[1..] == [];
    } else {
      assert (s + [c])[1..] == s[1..] + [c];
      WordsBeforeSpace(s[1..], c);
    }
  }

  lemma {:induction false} WordsOfTrimEnd(s: Text)
    ensures Words(TrimEnd(s)) == Words(s)
  {
    if s != [] && IsSpace(s[|s| - 1]) {
      WordsOfTrimEnd(s[..|s| - 1]);
      assert s == s[..|s| - 1] + [s[|s| - 1]];
      WordsBeforeSpace(s[..|s| - 1], s[|s| - 1]);
    }
  }

  /** A text without space at either end, once collapsed and split, falls apart into its words. */
  lemma {:induction false} SplitOfCollapse(s: Text)
    requires s != [] && !IsSpace(s[|s| - 1])
    ensures Split(Collapse(s)) == if IsSpace(s[0]) then [[]] + Words(s) else Words(s)
    ensures Collapse(s) != [] && (!IsSpace(s[0]) ==> Collapse(s)[0] == s[0])
  {
    if |s| == 1 {
      assert Collapse(s) == [s[0]];
      assert Split(Collapse(s)[1..]) == [[]];
      assert Words(s[1..]) == [];
    } else {
      var rest := s[1..];
      SplitOfCollapse(rest);
      if !IsSpace(s[0]) {
        assert Collapse(s)[1..] == Collapse(rest);
        assert IsSpace(SPACE);
        assert [s[0]] + [] == [s[0]];
      } else if !IsSpace(s[1]) {
        assert Collapse(s)[1..] == Collapse(rest);
      }
    }
  }

  /** Splitting the normalised text yields exactly the maximal runs without white space. */
  lemma SplitNormalized(s: Text)
    ensures Normalize(s) == [] <==> Words(s) == []
    ensures Normalize(s) != [] ==> Split(Normalize(s)) == Words(s)
  {
    WordsOfTrimStart(s);
    WordsOfTrimEnd(TrimStart(s));
    var t := TrimEnd(TrimStart(s));
    if t != [] {
      assert t[0] == TrimStart(s)[0];
      SplitOfCollapse(t);
    }
  }

  // ----- Joining

  function Join(words: seq<Text>): Text {
    if words == [] then []
    else if |words| == 1 then words[0]
    else words[0] + [SPACE] + Join(words[1..])
  }

  lemma {:induction false} SplitOne(w: Text)
    requires SPACE !in w
    ensures Split(w) == [w]
  {
    if w != [] {
      SplitOne(w[1..]);
      assert [w[0]] + w[1..] == w;
    }
  }

  lemma {:induction false} SplitFirst(w: Text, rest: Text)
    requires SPACE !in w
    ensures Split(w + [SPACE] + rest) == [w] + Split(rest)
  {
    var all := w + [SPACE] + rest;
    if w == [] {
      assert all[1..] == rest;
    } else {
      SplitFirst(w[1..], rest);
      assert all[1..] == w[1..] + [SPACE] + rest;
      assert [w[0]] + w[1..] == w;
    }
  }

  /** Splitting what has been joined gives the words back. */
  lemma {:induction false} SplitUndoesJoin(words: seq<Text>)
    requires words != [] && forall w <- words :: SPACE !in w
    ensures Split(Join(words)) == words
  {
    assert words[0] in words && forall w <- words[1..] :: w in words;
    if |words| == 1 {
      SplitOne(words[0]);
    } else {
      SplitUndoesJoin(words[1..]);
      SplitFirst(words[0], Join(words[1..]));
    }
  }

  /** The length of a joined run of words: the words and one space between neighbours. */
  function Width(words: seq<Text>): nat {
    |Join(words)|
  }

  lemma {:induction false} WidthOfConcat(a: seq<Text>, b: seq<Text>)
    requires a != [] && b != []
    ensures Width(a + b) == Width(a) + 1 + Width(b)
  {
    if |a| == 1 {
      assert (a + b)[1..] == b;
    } else {
      assert (a + b)[1..] == a[1..] + b;
      WidthOfConcat(a[1..], b);
    }
  }

  /** A longer suffix is wider. */
  lemma SuffixWidth(words: seq<Text>, i: nat, j: nat)
    requires i <= j <= |words|
    ensures Width(words[j..]) <= Width(words[i..])
  {
    if i < j < |words| {
      assert words[i..] == words[i..j] + words[j..];
      WidthOfConcat(words[i..j], words[j..]);
    }
  }

  // ----- Overlap

  /** The longest suffix that is at most `maxChars` wide. */
  ghost predicate LongestFittingSuffix(words: seq<Text>, maxChars: int, suffix: seq<Text>) {
    && |suffix| <= |words| && suffix == words[|words| - |suffix|..]
    && (suffix != [] ==> Width(suffix) <= maxChars)
    && forall i :: 0 <= i < |words| - |suffix| ==> Width(words[i..]) > maxChars
  }

  method TakeOverlap(words: seq<Text>, maxChars: int) returns (overlap: seq<Text>)
    requires 0 <= maxChars
    ensures LongestFittingSuffix(words, maxChars, overlap)
  {
    overlap := [];
    var index := |words| - 1;
    while index >= 0
      invariant -1 <= index < |words|
      invariant overlap == words[index + 1..]
      invariant Width(overlap) <= maxChars
    {
      var candidate := Join([words[index]] + overlap);
      assert [words[index]] + overlap == words[index..];
      if |candidate| > maxChars {
        forall i | 0 <= i < |words| - |overlap| ensures Width(words[i..]) > maxChars {
          SuffixWidth(words, i, index);
        }
        break;
      }
      overlap := [words[index]] + overlap;
      index := index - 1;
    }
  }

  // ----- Chunks

  datatype Chunk = Chunk(index: nat, text: Text)

  /** A chunk as a window of the word list: words[from..to]. */
  datatype Span = Span(from: nat, to: nat)

  function Longest(words: seq<Text>): nat {
    if words == [] then 0
    else if |words[0]| > Longest(words[1..]) then |words[0]| else Longest(words[1..])
  }

  lemma LongestBounds(words: seq<Text>, i: nat)
    requires i < |words|
    ensures |words[i]| <= Longest(words)
    decreases words
  {
    if i > 0 {
      LongestBounds(words[1..], i - 1);
    }
  }

  function Limit(words: seq<Text>, maxChars: int, overlapChars: int): int {
    var second := overlapChars + 1 + Longest(words);
    if maxChars >= second then maxChars else second
  }

  /** No word could have been added to the span. */
  ghost predicate Full(words: seq<Text>, s: Span, maxChars: int) {
    s.to < |words| && s.from < s.to && Width(words[s.from..s.to + 1]) > maxChars
  }

  /** The span fits, unless a single word past `floor` already makes it too wide. */
  ghost predicate Snug(words: seq<Text>, floor: nat, s: Span, maxChars: int)
    requires s.from <= s.to <= |words|
  {
    s.to == floor + 1 || Width(words[s.from..s.to]) <= maxChars
  }

  /** The next span starts with the longest fitting suffix of the one before, and goes further. */
  ghost predicate Follows(words: seq<Text>, s: Span, t: Span, overlapChars: int) {
    && s.from <= t.from <= s.to < t.to <= |words|
    && LongestFittingSuffix(words[s.from..s.to], overlapChars, words[t.from..s.to])
  }

  /** Where the last of these spans ends. */
  function LastEnd(spans: seq<Span>): nat {
    if spans == [] then 0 else spans[|spans| - 1].to
  }

  /** `last` may come after `spans`. */
  ghost predicate Link(words: seq<Text>, spans: seq<Span>, last: Span, maxChars: int, overlapChars: int) {
    && last.from < last.to <= |words|
    && Snug(words, LastEnd(spans), last, maxChars)
    && if spans == [] then last.from == 0
       else Full(words, spans[|spans| - 1], maxChars) && Follows(words, spans[|spans| - 1], last, overlapChars)
  }

  /** Spans that cover words[0..end] in order, each one full when the next begins. */
  ghost predicate Chain(words: seq<Text>, spans: seq<Span>, end: nat, maxChars: int, overlapChars: int) {
    if spans == [] then end == 0
    else
      var n := |spans| - 1;
      && spans[n].to == end
      && Link(words, spans[..n], spans[n], maxChars, overlapChars)
      && Chain(words, spans[..n], LastEnd(spans[..n]), maxChars, overlapChars)
  }

  ghost predicate Spells(words: seq<Text>, spans: seq<Span>, chunks: seq<Chunk>) {
    && |chunks| == |spans|
    && forall i :: 0 <= i < |chunks| ==> spans[i].from <= spans[i].to <= |words| && chunks[i] == Chunk(i, Join(words[spans[i].from..spans[i].to]))
  }

  /** The chunks spell a chain of windows over all the words. */
  ghost predicate Covers(words: seq<Text>, chunks: seq<Chunk>, maxChars: int, overlapChars: int) {
    exists spans :: Chain(words, spans, |words|, maxChars, overlapChars) && Spells(words, spans, chunks)
  }

  datatype ChunkError = BadMaxChars | BadOverlap

  /** The loop over the words. */
  method ChunkWords(words: seq<Text>, maxChars: int, overlapChars: int) returns (chunks: seq<Chunk>)
    requires words != [] && 0 <= overlapChars < maxChars
    ensures Covers(words, chunks, maxChars, overlapChars)
  {
    hide Join, Limit, Longest, Chain, Follows, Full;
    chunks := [];
    ghost var spans: seq<Span> := [];
    var current: seq<Text> := [];
    ghost var from: nat := 0;
    for n := 0 to |words|
      invariant Spells(words, spans, chunks)
      invariant from <= n && current == words[from..n]
      invariant n == 0 <==> current == []
      invariant n == 0 ==> spans == []
      invariant n > 0 ==> Chain(words, spans + [Span(from, n)], n, maxChars, overlapChars)
    {
      var word := words[n];
      var candidate := Join(current + [word]);
      assert current + [word] == words[from..n + 1];
      ghost var before, last := spans, Span(from, n);
      if current != [] && |candidate| > maxChars {
        chunks := chunks + [Chunk(|chunks|, Join(current))];
        spans := spans + [last];
        current := TakeOverlap(current, overlapChars);
        from := n - |current|;
        assert current == words[from..n];
        CloseSpan(words, before, last, from, maxChars, overlapChars);
      } else if current != [] {
        GrowSpan(words, before, last, maxChars, overlapChars);
      } else {
        FirstSpan(words, maxChars, overlapChars);
      }
      current := current + [word];
      assert current == words[from..n + 1];
      assert [] + [Span(0, 1)] == [Span(0, 1)];
    }
    chunks := chunks + [Chunk(|chunks|, Join(current))];
    spans := spans + [Span(from, |words|)];
  }

  /** `chunkText`: the chunks spell a chain of word windows that covers all the words of the text. */
  method ChunkText(value: Text, maxChars: int, overlapChars: int) returns (r: Result<seq<Chunk>, ChunkError>)
    ensures r.Failure? <==> maxChars <= 0 || overlapChars < 0 || overlapChars >= maxChars
    ensures r.Success? ==> Covers(Words(value), r.value, maxChars, overlapChars)
  {
    if maxChars <= 0 {
      return Failure(BadMaxChars);
    }
    if overlapChars < 0 || overlapChars >= maxChars {
      return Failure(BadOverlap);
    }
    var normalized := Normalize(value);
    SplitNormalized(value);
    if normalized == [] {
      assert Chain([], [], 0, maxChars, overlapChars) && Spells([], [], []);
      return Success([]);
    }
    var words := Split(normalized);
    var chunks := ChunkWords(words, maxChars, overlapChars);
    r := Success(chunks);
  }

  lemma FirstSpan(words: seq<Text>, maxChars: int, overlapChars: int)
    requires words != []
    ensures Chain(words, [Span(0, 1)], 1, maxChars, overlapChars)
  {
    AppendLink(words, [], Span(0, 1), maxChars, overlapChars);
    assert [] + [Span(0, 1)] == [Span(0, 1)];
  }

  lemma AppendLink(words: seq<Text>, spans: seq<Span>, last: Span, maxChars: int, overlapChars: int)
    ensures Chain(words, spans + [last], last.to, maxChars, overlapChars) <==>
            Link(words, spans, last, maxChars, overlapChars) && Chain(words, spans, LastEnd(spans), maxChars, overlapChars)
  {
    assert (spans + [last])[..|spans|] == spans;
  }

  lemma GrowSpan(words: seq<Text>, before: seq<Span>, last: Span, maxChars: int, overlapChars: int)
    requires last.from < last.to < |words|
    requires Chain(words, before + [last], last.to, maxChars, overlapChars)
    requires Width(words[last.from..last.to + 1]) <= maxChars
    ensures Chain(words, before + [Span(last.from, last.to + 1)], last.to + 1, maxChars, overlapChars)
  {
    hide Chain, Full, Width, LongestFittingSuffix;
    AppendLink(words, before, last, maxChars, overlapChars);
    AppendLink(words, before, Span(last.from, last.to + 1), maxChars, overlapChars);
  }

  lemma CloseSpan(words: seq<Text>, before: seq<Span>, last: Span, from: nat, maxChars: int, overlapChars: int)
    requires last.from < last.to < |words| && last.from <= from <= last.to
    requires Chain(words, before + [last], last.to, maxChars, overlapChars)
    requires Width(words[last.from..last.to + 1]) > maxChars
    requires LongestFittingSuffix(words[last.from..last.to], overlapChars, words[from..last.to])
    ensures Chain(words, before + [last] + [Span(from, last.to + 1)], last.to + 1, maxChars, overlapChars)
  {
    hide Chain, Width, LongestFittingSuffix;
    AppendLink(words, before + [last], Span(from, last.to + 1), maxChars, overlapChars);
  }

  lemma WidthOfNext(words: seq<Text>, from: nat, n: nat)
    requires from <= n < |words|
    ensures Width(words[from..n + 1]) == (if from == n then 0 else Width(words[from..n]) + 1) + |words[n]|
    ensures |words[n]| <= Longest(words)
  {
    LongestBounds(words, n);
    if from < n {
      assert words[from..n + 1] == words[from..n] + [words[n]];
      WidthOfConcat(words[from..n], [words[n]]);
    } else {
      assert words[from..n + 1] == [words[n]];
    }
  }

  // ----- What a chain of spans means

  /** Every span of a chain is linked to the ones before it. */
  lemma {:induction false} ChainAt(words: seq<Text>, spans: seq<Span>, end: nat, maxChars: int, overlapChars: int, i: nat)
    requires Chain(words, spans, end, maxChars, overlapChars) && i < |spans|
    ensures Link(words, spans[..i], spans[i], maxChars, overlapChars)
    ensures i < |spans| - 1 ==> Full(words, spans[i], maxChars) && spans[i].to < spans[i + 1].to
    ensures spans[i].to <= end
    decreases |spans|
  {
    hide Full, Snug, LongestFittingSuffix;
    var n := |spans| - 1;
    if i < n {
      var shorter := spans[..n];
      ChainAt(words, shorter, LastEnd(shorter), maxChars, overlapChars, i);
      assert shorter[..i] == spans[..i];
      if i + 1 < n {
        assert shorter[i + 1] == spans[i + 1];
      }
    }
  }

  /** Chunks end further and further on, and never start further back. */
  lemma {:induction false} EndsIncrease(words: seq<Text>, spans: seq<Span>, end: nat, maxChars: int, overlapChars: int, i: nat, j: nat)
    requires Chain(words, spans, end, maxChars, overlapChars) && i <= j < |spans|
    ensures spans[i].from <= spans[j].from && spans[i].to <= spans[j].to && (i < j ==> spans[i].to < spans[j].to)
    decreases j - i
  {
    hide Chain, Full, Snug, LongestFittingSuffix;
    if i < j {
      EndsIncrease(words, spans, end, maxChars, overlapChars, i, j - 1);
      ChainAt(words, spans, end, maxChars, overlapChars, j);
    }
  }

  /** No chunk is wider than the limit, or than an overlap and the longest word. */
  lemma ChunkWidth(words: seq<Text>, spans: seq<Span>, end: nat, maxChars: int, overlapChars: int, i: nat)
    requires Chain(words, spans, end, maxChars, overlapChars) && 0 <= overlapChars && i < |spans|
    ensures spans[i].from < spans[i].to <= |words|
    ensures Width(words[spans[i].from..spans[i].to]) <= Limit(words, maxChars, overlapChars)
  {
    hide Chain, Width, Longest, Full;
    ChainAt(words, spans, end, maxChars, overlapChars, i);
    WidthOfNext(words, spans[i].from, spans[i].to - 1);
  }

  /** The words each span adds to the ones before it. */
  function FreshWords(words: seq<Text>, spans: seq<Span>): seq<Text> {
    if spans == [] then []
    else
      var n := |spans| - 1;
      var start := LastEnd(spans[..n]);
      FreshWords(words, spans[..n]) + if start <= spans[n].to <= |words| then words[start..spans[n].to] else []
  }

  lemma LastOfChain(words: seq<Text>, spans: seq<Span>, end: nat, maxChars: int, overlapChars: int)
    requires Chain(words, spans, end, maxChars, overlapChars) && spans != []
    ensures var n := |spans| - 1;
            var start := LastEnd(spans[..n]);
            start <= spans[n].to == end && Chain(words, spans[..n], start, maxChars, overlapChars)
  {
    hide Full, Snug, LongestFittingSuffix;
  }

  lemma PrefixGrows<T>(s: seq<T>, i: nat, j: nat)
    requires i <= j <= |s|
    ensures s[..j] == s[..i] + s[i..j]
  {
  }

  /** Dropping the overlaps gives the word list back, every word once and in order. */
  lemma {:induction false} ChunksReassemble(words: seq<Text>, spans: seq<Span>, end: nat, maxChars: int, overlapChars: int)
    requires Chain(words, spans, end, maxChars, overlapChars) && end <= |words|
    ensures FreshWords(words, spans) == words[..end]
    decreases |spans|
  {
    if spans == [] {
    } else {
      hide Chain;
      var n := |spans| - 1;
      LastOfChain(words, spans, end, maxChars, overlapChars);
      ChunksReassemble(words, spans[..n], LastEnd(spans[..n]), maxChars, overlapChars);
      PrefixGrows(words, LastEnd(spans[..n]), end);
    }
  }

  lemma SuffixUnique(words: seq<Text>, maxChars: int, a: seq<Text>, b: seq<Text>)
    requires LongestFittingSuffix(words, maxChars, a) && LongestFittingSuffix(words, maxChars, b)
    ensures |a| == |b|
  {
    assert a == words[|words| - |a|..] && b == words[|words| - |b|..];
  }

  lemma PrefixWidth(words: seq<Text>, from: nat, i: nat, j: nat)
    requires from < i <= j <= |words|
    ensures Width(words[from..i]) <= Width(words[from..j])
  {
    if i < j {
      assert words[from..j] == words[from..i] + words[i..j];
      WidthOfConcat(words[from..i], words[i..j]);
    }
  }

  /** A span that could not take another word ends no earlier than any rival that starts where it does. */
  lemma NotShorter(words: seq<Text>, spans: seq<Span>, s: Span, t: Span, maxChars: int, overlapChars: int)
    requires Link(words, spans, s, maxChars, overlapChars) && Link(words, spans, t, maxChars, overlapChars)
    requires s.from == t.from && Full(words, s, maxChars)
    ensures t.to <= s.to
  {
    hide Width, LongestFittingSuffix;
    if s.to < t.to {
      PrefixWidth(words, s.from, s.to + 1, t.to);
    }
  }

  lemma SameStart(words: seq<Text>, spans: seq<Span>, s: Span, t: Span, maxChars: int, overlapChars: int)
    requires Link(words, spans, s, maxChars, overlapChars) && Link(words, spans, t, maxChars, overlapChars)
    ensures s.from == t.from
  {
    hide Width, Full, Snug, LongestFittingSuffix;
    if spans != [] {
      var p := spans[|spans| - 1];
      SuffixUnique(words[p.from..p.to], overlapChars, words[s.from..p.to], words[t.from..p.to]);
    }
  }

  lemma {:induction false} SpansAgree(words: seq<Text>, a: seq<Span>, b: seq<Span>, end: nat, maxChars: int, overlapChars: int, i: nat)
    requires Chain(words, a, end, maxChars, overlapChars) && Chain(words, b, end, maxChars, overlapChars)
    requires i <= |a| && i <= |b|
    ensures a[..i] == b[..i]
    decreases i
  {
    hide *;
    if i > 0 {
      var k := i - 1;
      SpansAgree(words, a, b, end, maxChars, overlapChars, k);
      NextSpanAgrees(words, a, b, end, maxChars, overlapChars, k);
      PrefixStep(a, b, k);
    }
  }

  lemma PrefixStep(a: seq<Span>, b: seq<Span>, k: nat)
    requires k < |a| && k < |b| && a[..k] == b[..k] && a[k] == b[k]
    ensures a[..k + 1] == b[..k + 1]
  {
    assert a[..k + 1] == a[..k] + [a[k]] && b[..k + 1] == b[..k] + [b[k]];
  }

  lemma NextSpanAgrees(words: seq<Text>, a: seq<Span>, b: seq<Span>, end: nat, maxChars: int, overlapChars: int, k: nat)
    requires Chain(words, a, end, maxChars, overlapChars) && Chain(words, b, end, maxChars, overlapChars)
    requires k < |a| && k < |b| && a[..k] == b[..k]
    ensures a[k] == b[k]
  {
    ChainAt(words, a, end, maxChars, overlapChars, k);
    ChainAt(words, b, end, maxChars, overlapChars, k);
    ChainEnd(words, a, end, maxChars, overlapChars);
    ChainEnd(words, b, end, maxChars, overlapChars);
    hide Chain, Full, Link;
    SameStart(words, a[..k], a[k], b[k], maxChars, overlapChars);
    if k < |a| - 1 {
      NotShorter(words, a[..k], a[k], b[k], maxChars, overlapChars);
    }
    if k < |b| - 1 {
      NotShorter(words, a[..k], b[k], a[k], maxChars, overlapChars);
    }
  }

  lemma ChainEnd(words: seq<Text>, spans: seq<Span>, end: nat, maxChars: int, overlapChars: int)
    requires Chain(words, spans, end, maxChars, overlapChars)
    ensures LastEnd(spans) == end
    ensures spans != [] ==> end > 0
  {
  }

  /** There is only one such chain: the properties above determine the chunks completely. */
  lemma ChainUnique(words: seq<Text>, a: seq<Span>, b: seq<Span>, end: nat, maxChars: int, overlapChars: int)
    requires Chain(words, a, end, maxChars, overlapChars) && Chain(words, b, end, maxChars, overlapChars)
    ensures a == b
  {
    var n := if |a| < |b| then |a| else |b|;
    SpansAgree(words, a, b, end, maxChars, overlapChars, n);
    if n == |b| {
      LengthsAgree(words, a, b, n, end, maxChars, overlapChars);
    } else {
      LengthsAgree(words, b, a, n, end, maxChars, overlapChars);
    }
    assert a[..n] == a && b[..n] == b;
  }

  lemma LengthsAgree(words: seq<Text>, a: seq<Span>, b: seq<Span>, n: nat, end: nat, maxChars: int, overlapChars: int)
    requires Chain(words, a, end, maxChars, overlapChars) && Chain(words, b, end, maxChars, overlapChars)
    requires n <= |a| && n == |b| && a[..n] == b
    ensures |a| == n
  {
    hide Chain;
    ChainEnd(words, a, end, maxChars, overlapChars);
    ChainEnd(words, b, end, maxChars, overlapChars);
    if n > 0 {
      EndsIncrease(words, a, end, maxChars, overlapChars, n - 1, |a| - 1);
    }
  }

  /** So a word list and two limits have one list of chunks. */
  lemma ChunksDetermined(words: seq<Text>, a: seq<Chunk>, b: seq<Chunk>, maxChars: int, overlapChars: int)
    requires Covers(words, a, maxChars, overlapChars) && Covers(words, b, maxChars, overlapChars)
    ensures a == b
  {
    hide Chain, Join;
    var spans :| Chain(words, spans, |words|, maxChars, overlapChars) && Spells(words, spans, a);
    var others :| Chain(words, others, |words|, maxChars, overlapChars) && Spells(words, others, b);
    ChainUnique(words, spans, others, |words|, maxChars, overlapChars);
  }
}
