/** The frontend token aligner: `TokenizedMessage` turns a bot reply and the
    annotations the backend attached to it into a sequence of rendered parts,
    some of which carry an explanatory blurb. */
module TokenizedMessage {
  import opened Wrappers
  import opened Text

  /** `TokenData`: a character offset into the message, the text shown on
      hover, and an optional literal word used for whole-word matching. */
  datatype Token = Token(index: int, blurb: string, word: Option<string>)

  /** A rendered part: a plain `<span>` or a `<TokenTooltip>` with a blurb. */
  datatype Part = Plain(text: string) | Annotated(text: string, blurb: string)

  // ---------------------------------------------------------------------
  // Splitting on `/(\s+|[.,!?;:¿¡])/`
  // ---------------------------------------------------------------------

  /** The punctuation class `[.,!?;:¿¡]` of the split pattern. */
  predicate IsPunct(c: char) {
    c == '.' || c == ',' || c == '!' || c == '?' || c == ';' || c == ':' || c == '¿' || c == '¡'
  }

  /** A character at which the split pattern can start matching. */
  predicate IsDelim(c: char) {
    IsSpace(c) || IsPunct(c)
  }

  /** A text part: it holds no delimiter character (it may be empty). */
  predicate IsTextPart(p: string) {
    forall i :: 0 <= i < |p| ==> !IsDelim(p[i])
  }

  /** A delimiter part, captured by the group of the split pattern: one
      punctuation character or a non-empty run of spaces. */
  predicate IsDelimPart(p: string) {
    (|p| == 1 && IsPunct(p[0])) || (|p| > 0 && AllSpace(p))
  }

  /** The shape `String.prototype.split` gives with a capturing pattern that
      never matches the empty string: text, delimiter, text, ..., text; and
      since `\s+` is greedy, a run of spaces is never directly followed by
      another space. */
  ghost predicate SplitShape(parts: seq<string>) {
    && |parts| % 2 == 1
    && (forall i :: 0 <= i < |parts| && i % 2 == 0 ==> IsTextPart(parts[i]))
    && (forall i :: 0 <= i < |parts| && i % 2 == 1 ==> IsDelimPart(parts[i]))
    && (forall i :: 0 <= i < |parts| - 2 && i % 2 == 1 ==> RunIsMaximal(parts, i))
  }

  /** The delimiter part `i`, if it is a run of spaces, is not followed by
      an empty text part and then a second run of spaces. */
  ghost predicate RunIsMaximal(parts: seq<string>, i: nat)
    requires i + 2 < |parts|
  {
    AllSpace(parts[i]) && parts[i + 1] == "" ==> !AllSpace(parts[i + 2])
  }

  /** The first position at or after `i` where the split pattern matches. */
  function NextDelim(s: string, i: nat): (q: nat)
    requires i <= |s|
    ensures i <= q <= |s|
    ensures forall j :: i <= j < q ==> !IsDelim(s[j])
    ensures q < |s| ==> IsDelim(s[q])
    decreases |s| - i
  {
    if i == |s| || IsDelim(s[i]) then i else NextDelim(s, i + 1)
  }

  /** Where the match of `\s+|[.,!?;:¿¡]` that starts at `q` ends. */
  function DelimEnd(s: string, q: nat): (e: nat)
    requires q < |s| && IsDelim(s[q])
    ensures q < e <= |s|
    ensures IsDelimPart(s[q..e])
    ensures IsSpace(s[q]) ==> e == |s| || !IsSpace(s[e])
    ensures !IsSpace(s[q]) ==> e == q + 1
  {
    if IsSpace(s[q]) then SkipSpaces(s, q) else q + 1
  }

  /** Prepending a text part and a delimiter part keeps the split shape,
      provided a run of spaces is not followed by an empty text part and then
      another run of spaces. */
  lemma ShapeCons(t: string, d: string, rest: seq<string>)
    requires IsTextPart(t) && IsDelimPart(d) && SplitShape(rest)
    requires AllSpace(d) && |rest| > 1 && rest[0] == "" ==> !AllSpace(rest[1])
    ensures SplitShape([t, d] + rest)
  {
    var parts := [t, d] + rest;
    assert forall i :: 2 <= i < |parts| ==> parts[i] == rest[i - 2];
    forall i | 0 <= i < |parts| && i % 2 == 0 ensures IsTextPart(parts[i]) {
      if i >= 2 { assert (i - 2) % 2 == 0; }
    }
    forall i | 0 <= i < |parts| && i % 2 == 1 ensures IsDelimPart(parts[i]) {
      if i >= 2 { assert (i - 2) % 2 == 1; }
    }
    forall i | 0 <= i < |parts| - 2 && i % 2 == 1 ensures RunIsMaximal(parts, i) {
      if i >= 2 {
        assert (i - 2) % 2 == 1;
        assert RunIsMaximal(rest, i - 2);
      }
    }
  }

  /** `content.split(/(\s+|[.,!?;:¿¡])/)`: the text between matches, with
      every match kept as its own part. Lossless: the parts concatenate back
      to `s`. */
  function Split(s: string): (parts: seq<string>)
    ensures SplitShape(parts)
    ensures Concat(parts) == s
    ensures |parts| > 1 && parts[0] == "" ==> |s| > 0 && |parts[1]| > 0 && parts[1][0] == s[0]
    decreases |s|
  {
    var q := NextDelim(s, 0);
    if q == |s| then
      assert s[..q] == s;
      assert Concat([s]) == Concat([]) + s;
      [s]
    else
      var e := DelimEnd(s, q);
      var rest := Split(s[e..]);
      SplitStep(s, q, e, rest);
      [s[..q], s[q..e]] + rest
  }

  /** One step of `Split`: the text before the first match, the match, then
      the split of the remainder. */
  lemma SplitStep(s: string, q: nat, e: nat, rest: seq<string>)
    requires q < |s| && NextDelim(s, 0) == q && e == DelimEnd(s, q)
    requires SplitShape(rest) && Concat(rest) == s[e..]
    requires |rest| > 1 && rest[0] == "" ==> |s[e..]| > 0 && |rest[1]| > 0 && rest[1][0] == s[e..][0]
    ensures SplitShape([s[..q], s[q..e]] + rest)
    ensures Concat([s[..q], s[q..e]] + rest) == s
  {
    SplitConcatStep(s, q, e, rest);
    assert IsTextPart(s[..q]);
    if AllSpace(s[q..e]) && |rest| > 1 && rest[0] == "" {
      RunThenNoSpace(s, q, e, rest[1]);
    }
    ShapeCons(s[..q], s[q..e], rest);
  }

  lemma SplitConcatStep(s: string, q: nat, e: nat, rest: seq<string>)
    requires q <= e <= |s| && Concat(rest) == s[e..]
    ensures Concat([s[..q], s[q..e]] + rest) == s
  {
    ConcatCons2(s[..q], s[q..e], rest);
    assert s == s[..q] + s[q..e] + s[e..];
  }

  /** What follows a maximal run of spaces does not start with a space. */
  lemma RunThenNoSpace(s: string, q: nat, e: nat, next: string)
    requires q < |s| && IsDelim(s[q]) && e == DelimEnd(s, q) && AllSpace(s[q..e])
    requires e < |s| && |next| > 0 && next[0] == s[e]
    ensures !AllSpace(next)
  {
    assert s[q..e][0] == s[q];
  }

  lemma SkipSpacesUnique(s: string, q: nat, e: nat)
    requires q <= e <= |s|
    requires forall j :: q <= j < e ==> IsSpace(s[j])
    requires e < |s| ==> !IsSpace(s[e])
    ensures SkipSpaces(s, q) == e
  {
  }

  lemma ConcatCons2(t: string, d: string, rest: seq<string>)
    ensures Concat([t, d] + rest) == t + d + Concat(rest)
  {
    assert [t, d] + rest == [t] + ([d] + rest);
    ConcatCons(t, [d] + rest);
    ConcatCons(d, rest);
  }

  /** A split-shaped sequence starts with the first match of the pattern. */
  lemma ShapeHead(s: string, parts: seq<string>)
    requires SplitShape(parts) && Concat(parts) == s && |parts| > 1
    ensures s == parts[0] + parts[1] + Concat(parts[2..])
    ensures |parts[0]| < |s| && NextDelim(s, 0) == |parts[0]|
    ensures DelimEnd(s, |parts[0]|) == |parts[0]| + |parts[1]|
  {
    var t, d, rest := parts[0], parts[1], parts[2..];
    assert |parts| >= 3;
    TwoAndRest(parts);
    ConcatCons2(t, d, rest);
    var tail := Concat(rest);
    assert AllSpace(d) && |tail| > 0 ==> !IsSpace(tail[0]) by {
      if AllSpace(d) && |tail| > 0 {
        if |parts| > 3 { assert RunIsMaximal(parts, 1); }
        ShapeNextChar(tail, rest, d);
      }
    }
    HeadDelim(s, t, d, tail);
  }

  /** Text, then a delimiter part, then something that does not continue a
      run of spaces: the first match of the pattern is exactly that part. */
  lemma HeadDelim(s: string, t: string, d: string, tail: string)
    requires IsTextPart(t) && IsDelimPart(d) && s == t + d + tail
    requires AllSpace(d) && |tail| > 0 ==> !IsSpace(tail[0])
    ensures |t| < |s| && NextDelim(s, 0) == |t|
    ensures DelimEnd(s, |t|) == |t| + |d|
  {
    var q, e := |t|, |t| + |d|;
    assert NextDelim(s, 0) == q by {
      assert s[q] == d[0];
      assert forall j :: 0 <= j < q ==> s[j] == t[j];
    }
    if IsSpace(d[0]) {
      assert AllSpace(d);
      assert e < |s| ==> s[e] == tail[0];
      assert forall j :: q <= j < e ==> s[j] == d[j - q];
      SkipSpacesUnique(s, q, e);
    }
  }

  /** After a run of spaces `d`, the remainder of the string does not start
      with a space. */
  lemma ShapeNextChar(s: string, rest: seq<string>, d: string)
    requires |s| > 0 && Concat(rest) == s && |rest| > 0 && |rest| % 2 == 1
    requires IsTextPart(rest[0])
    requires |rest| > 1 ==> IsDelimPart(rest[1])
    requires AllSpace(d) && |rest| > 1 && rest[0] == "" ==> !AllSpace(rest[1])
    requires |d| > 0 && AllSpace(d)
    ensures !IsSpace(s[0])
  {
    ConcatCons(rest[0], rest[1..]);
    assert rest == [rest[0]] + rest[1..];
    if |rest[0]| > 0 {
      assert s[0] == rest[0][0];
    } else {
      assert |rest| > 1;
      assert rest[1..] == [rest[1]] + rest[2..];
      ConcatCons(rest[1], rest[2..]);
      assert s[0] == rest[1][0];
    }
  }

  lemma SplitOfText(s: string)
    requires IsTextPart(s)
    ensures Split(s) == [s]
  {
    assert NextDelim(s, 0) == |s|;
  }

  lemma SplitUnfold(s: string, q: nat, e: nat)
    requires q < |s| && q == NextDelim(s, 0) && e == DelimEnd(s, q)
    ensures Split(s) == [s[..q], s[q..e]] + Split(s[e..])
  {
  }

  lemma SingletonConcat(parts: seq<string>)
    requires |parts| == 1
    ensures parts == [Concat(parts)]
  {
    assert parts[..0] == [];
    assert Concat(parts) == Concat(parts[..0]) + parts[0];
    assert Concat(parts[..0]) == "";
    assert "" + parts[0] == parts[0];
    assert Concat(parts) == parts[0];
    assert parts == [parts[0]];
  }

  /** `Split` is the ONLY split of `s` with the shape above: any sequence of
      parts with that shape that concatenates to `s` is `Split(s)`. */
  lemma {:induction false} SplitUnique(s: string, parts: seq<string>)
    requires SplitShape(parts)
    requires Concat(parts) == s
    ensures parts == Split(s)
    decreases |parts|
  {
    if |parts| == 1 {
      SingletonConcat(parts);
      assert IsTextPart(parts[0]);
      SplitOfText(s);
    } else {
      var q, e := |parts[0]|, |parts[0]| + |parts[1]|;
      assert q < |s| && q == NextDelim(s, 0) && e == DelimEnd(s, q)
             && s[..q] == parts[0] && s[q..e] == parts[1] && s[e..] == Concat(parts[2..]) by {
        ShapeHead(s, parts);
      }
      assert parts[2..] == Split(s[e..]) by {
        ShapeTail(parts);
        SplitUnique(s[e..], parts[2..]);
      }
      SplitUnfold(s, q, e);
      TwoAndRest(parts);
    }
  }

  lemma TwoAndRest<T>(x: seq<T>)
    requires |x| >= 2
    ensures x == [x[0], x[1]] + x[2..]
  {
  }

  lemma ShapeTail(parts: seq<string>)
    requires SplitShape(parts) && |parts| > 1
    ensures SplitShape(parts[2..])
  {
    var rest := parts[2..];
    forall i | 0 <= i < |rest| && i % 2 == 0 ensures IsTextPart(rest[i]) {
      assert rest[i] == parts[i + 2];
    }
    forall i | 0 <= i < |rest| && i % 2 == 1 ensures IsDelimPart(rest[i]) {
      assert rest[i] == parts[i + 2];
    }
    forall i | 0 <= i < |rest| - 2 && i % 2 == 1 ensures RunIsMaximal(rest, i) {
      assert RunIsMaximal(parts, i + 2);
      assert rest[i] == parts[i + 2] && rest[i + 1] == parts[i + 3] && rest[i + 2] == parts[i + 4];
    }
  }

  // ---------------------------------------------------------------------
  // The offset -> annotation map
  // ---------------------------------------------------------------------

  /** `s.indexOf(w, from) === p` can succeed at `p`. */
  predicate OccursAt(s: string, w: string, p: int) {
    0 <= p && p + |w| <= |s| && s[p..p + |w|] == w
  }

  /** `String.prototype.indexOf(w, from)` for `from <= |s|`: the first
      occurrence at or after `from`, or -1. */
  function IndexOf(s: string, w: string, from: nat): (k: int)
    requires from <= |s|
    ensures k == -1 || (from <= k && OccursAt(s, w, k))
    ensures k == -1 ==> forall p :: from <= p ==> !OccursAt(s, w, p)
    ensures k != -1 ==> forall p :: from <= p < k ==> !OccursAt(s, w, p)
    decreases |s| - from
  {
    if from + |w| > |s| then -1
    else if s[from..from + |w|] == w then from
    else IndexOf(s, w, from + 1)
  }

  /** The neighbour the scan inspects before position `p`; a blank stands in
      for the start of the string. */
  function CharBefore(s: string, p: nat): char
    requires p <= |s|
  {
    if p > 0 then s[p - 1] else ' '
  }

  /** The character at `p`; a blank stands in for the end of the string. */
  function CharAt(s: string, p: nat): char
  {
    if p < |s| then s[p] else ' '
  }

  /** `word` occurs at `p` and is not part of a larger `\w` run: each
      neighbour is a non-word character or the string boundary. */
  predicate WholeWordAt(s: string, word: string, p: int) {
    && OccursAt(s, word, p)
    && (p == 0 || !IsWordChar(s[p - 1]))
    && (p + |word| == |s| || !IsWordChar(s[p + |word|]))
  }

  /** `if (token.word)`: the word is present and non-empty. */
  predicate HasWord(t: Token) {
    t.word.Some? && |t.word.value| > 0
  }

  /** The offsets a token writes into the map: its own `index`, and every
      whole-word occurrence of its `word`. */
  predicate Claims(content: string, t: Token, p: int) {
    p == t.index || (HasWord(t) && WholeWordAt(content, t.word.value, p))
  }

  /** The `while (true)` loop over `content.indexOf(word, searchIndex)`:
      `searchIndex` moves to one past each occurrence, so the scan ends and
      every occurrence at or after the start is visited. */
  function ScanWord(content: string, word: string, t: Token, searchIndex: nat,
                    m: map<int, Token>): (r: map<int, Token>)
    requires 0 < |word| && searchIndex <= |content|
    ensures forall p :: p in r <==> p in m || (searchIndex <= p && WholeWordAt(content, word, p))
    ensures forall p :: p in r ==>
              r[p] == (if searchIndex <= p && WholeWordAt(content, word, p) then t else m[p])
    decreases |content| - searchIndex
  {
    var k := IndexOf(content, word, searchIndex);
    if k == -1 then
      m
    else
      var whole := !IsWordChar(CharBefore(content, k)) && !IsWordChar(CharAt(content, k + |word|));
      assert whole <==> WholeWordAt(content, word, k);
      ScanWord(content, word, t, k + 1, if whole then m[k := t] else m)
  }

  /** One iteration of `sortedTokens.forEach`: the primary index first, then
      the word scan; later writes replace earlier ones. */
  function Register(content: string, m: map<int, Token>, t: Token): (r: map<int, Token>)
    ensures forall p :: p in r <==> p in m || Claims(content, t, p)
    ensures forall p :: p in r ==> r[p] == (if Claims(content, t, p) then t else m[p])
  {
    var m1 := m[t.index := t];
    if HasWord(t) then ScanWord(content, t.word.value, t, 0, m1) else m1
  }

  /** The map after `forEach` over `toks`, in order, from an empty map. */
  function BuildMap(content: string, toks: seq<Token>): map<int, Token>
  {
    if |toks| == 0 then map[]
    else Register(content, BuildMap(content, toks[..|toks| - 1]), toks[|toks| - 1])
  }

  /** `j` is the last token of `toks` that claims offset `p`. */
  ghost predicate LastClaim(content: string, toks: seq<Token>, p: int, j: int) {
    && 0 <= j < |toks|
    && Claims(content, toks[j], p)
    && (forall k :: j < k < |toks| ==> !Claims(content, toks[k], p))
  }

  /** A token that does not claim `p` leaves the last claimant of `p` as it was. */
  lemma LastClaimSnoc(content: string, init: seq<Token>, t: Token, p: int, j: int)
    requires LastClaim(content, init, p, j) && !Claims(content, t, p)
    ensures LastClaim(content, init + [t], p, j) && (init + [t])[j] == init[j]
  {
    var s := init + [t];
    forall k | j < k < |s| ensures !Claims(content, s[k], p) {
      if k < |init| { assert s[k] == init[k]; }
    }
  }

  /** Last write wins: an offset is a key iff some token claims it, and then
      it maps to the LAST token that claims it, whether by primary index or
      by word scan. */
  lemma {:induction false} BuildMapLastWriteWins(content: string, toks: seq<Token>, p: int)
    ensures p in BuildMap(content, toks) <==> exists j :: 0 <= j < |toks| && Claims(content, toks[j], p)
    ensures p in BuildMap(content, toks) ==>
              exists j :: LastClaim(content, toks, p, j) && BuildMap(content, toks)[p] == toks[j]
    decreases |toks|
  {
    if |toks| > 0 {
      var n := |toks| - 1;
      var init := toks[..n];
      BuildMapLastWriteWins(content, init, p);
      var m := BuildMap(content, init);
      if Claims(content, toks[n], p) {
        assert LastClaim(content, toks, p, n);
      } else if p in m {
        var j :| LastClaim(content, init, p, j) && m[p] == init[j];
        assert toks == init + [toks[n]];
        LastClaimSnoc(content, init, toks[n], p, j);
      } else {
        forall j | 0 <= j < |toks| ensures !Claims(content, toks[j], p) {
          if j < n { assert toks[j] == init[j]; }
        }
      }
    }
  }

  // ---------------------------------------------------------------------
  // Stable sort by index
  // ---------------------------------------------------------------------

  predicate SortedByIndex(s: seq<Token>) {
    forall i, j :: 0 <= i < j < |s| ==> s[i].index <= s[j].index
  }

  /** The tokens of `s` whose index is `k`, in their order in `s`. */
  function WithIndex(s: seq<Token>, k: int): seq<Token>
  {
    if |s| == 0 then []
    else WithIndex(s[..|s| - 1], k) + (if s[|s| - 1].index == k then [s[|s| - 1]] else [])
  }

  lemma WithIndexSnoc(s: seq<Token>, x: Token, k: int)
    ensures WithIndex(s + [x], k) == WithIndex(s, k) + (if x.index == k then [x] else [])
  {
    assert (s + [x])[..|s|] == s;
  }

  lemma WithIndexSnocAll(s: seq<Token>, x: Token)
    ensures forall k :: WithIndex(s + [x], k) == WithIndex(s, k) + (if x.index == k then [x] else [])
  {
    forall k ensures WithIndex(s + [x], k) == WithIndex(s, k) + (if x.index == k then [x] else []) {
      WithIndexSnoc(s, x, k);
    }
  }

  /** Insert `t` after every element whose index is at most `t.index`. */
  function InsertByIndex(sorted: seq<Token>, t: Token): (r: seq<Token>)
    requires SortedByIndex(sorted)
    ensures SortedByIndex(r)
    ensures multiset(r) == multiset(sorted) + multiset{t}
    ensures forall k :: WithIndex(r, k) == WithIndex(sorted, k) + (if t.index == k then [t] else [])
  {
    if |sorted| == 0 || sorted[|sorted| - 1].index <= t.index then
      WithIndexSnocAll(sorted, t);
      sorted + [t]
    else
      var last := sorted[|sorted| - 1];
      var init := sorted[..|sorted| - 1];
      var front := InsertByIndex(init, t);
      InsertStep(sorted, t, init, last, front);
      front + [last]
  }

  /** The recursive case of `InsertByIndex`: `t` goes before `last`. */
  lemma InsertStep(sorted: seq<Token>, t: Token, init: seq<Token>, last: Token, front: seq<Token>)
    requires SortedByIndex(sorted) && |sorted| > 0
    requires init == sorted[..|sorted| - 1] && last == sorted[|sorted| - 1] && t.index < last.index
    requires SortedByIndex(front)
    requires multiset(front) == multiset(init) + multiset{t}
    requires forall k :: WithIndex(front, k) == WithIndex(init, k) + (if t.index == k then [t] else [])
    ensures SortedByIndex(front + [last])
    ensures multiset(front + [last]) == multiset(sorted) + multiset{t}
    ensures forall k :: WithIndex(front + [last], k) == WithIndex(sorted, k) + (if t.index == k then [t] else [])
  {
    assert sorted == init + [last];
    InsertStepSorted(sorted, t, init, last, front);
    InsertStepMultiset(init, t, last, front);
    forall k ensures WithIndex(front + [last], k) == WithIndex(init + [last], k) + (if t.index == k then [t] else []) {
      InsertStepStable(init, t, last, front, k);
    }
  }

  lemma InsertStepMultiset(init: seq<Token>, t: Token, last: Token, front: seq<Token>)
    requires multiset(front) == multiset(init) + multiset{t}
    ensures multiset(front + [last]) == multiset(init + [last]) + multiset{t}
  {
    assert multiset(front + [last]) == multiset(front) + multiset{last};
    assert multiset(init + [last]) == multiset(init) + multiset{last};
  }

  lemma InsertStepStable(init: seq<Token>, t: Token, last: Token, front: seq<Token>, k: int)
    requires t.index < last.index
    requires WithIndex(front, k) == WithIndex(init, k) + (if t.index == k then [t] else [])
    ensures WithIndex(front + [last], k) == WithIndex(init + [last], k) + (if t.index == k then [t] else [])
  {
    WithIndexSnoc(front, last, k);
    WithIndexSnoc(init, last, k);
    SwapSingletons(WithIndex(init, k), if t.index == k then [t] else [], if last.index == k then [last] else []);
  }

  lemma SwapSingletons(w: seq<Token>, a: seq<Token>, b: seq<Token>)
    requires |a| == 0 || |b| == 0
    ensures w + a + b == w + b + a
  {
    if |a| == 0 { assert w + a == w && b + a == b; } else { assert w + b == w && a + b == a; }
  }

  lemma InsertStepSorted(sorted: seq<Token>, t: Token, init: seq<Token>, last: Token, front: seq<Token>)
    requires SortedByIndex(sorted) && sorted == init + [last] && t.index < last.index
    requires SortedByIndex(front)
    requires multiset(front) == multiset(init) + multiset{t}
    ensures SortedByIndex(front + [last])
  {
    forall i | 0 <= i < |front| ensures front[i].index <= last.index {
      var x := front[i];
      assert x in multiset(front);
      if x != t {
        assert x in multiset(init);
        var j :| 0 <= j < |init| && init[j] == x;
        assert sorted[j] == x && sorted[|init|] == last;
      }
    }
  }

  /** `[...tokenMetadata].sort((a, b) => a.index - b.index)`: ascending by
      index, a permutation, and stable (tokens with equal index keep their
      relative order). */
  function SortByIndex(s: seq<Token>): (r: seq<Token>)
    ensures SortedByIndex(r)
    ensures multiset(r) == multiset(s)
    ensures forall k :: WithIndex(r, k) == WithIndex(s, k)
  {
    if |s| == 0 then []
    else
      assert s == s[..|s| - 1] + [s[|s| - 1]];
      WithIndexSnocAll(s[..|s| - 1], s[|s| - 1]);
      InsertByIndex(SortByIndex(s[..|s| - 1]), s[|s| - 1])
  }

  // ---------------------------------------------------------------------
  // Rendering
  // ---------------------------------------------------------------------

  /** `part.trim().length > 0 && /\w/.test(part)`; by the contract of
      `Trim`, the trimmed part is non-empty exactly when the part is not all
      space. */
  predicate IsWordPart(part: string) {
    !AllSpace(part) && HasWordChar(part)
  }

  /** The two tests agree with the source's, and the first is implied by the
      second: a part holding a word character is never blank. */
  lemma WordPartTests(part: string)
    ensures IsWordPart(part) <==> |Trim(part)| > 0 && HasWordChar(part)
    ensures IsWordPart(part) <==> HasWordChar(part)
  {
    if HasWordChar(part) {
      WordCharNotBlank(part);
    }
  }

  /** The text of each rendered part. */
  function Texts(r: seq<Part>): seq<string>
  {
    seq(|r|, i requires 0 <= i < |r| => r[i].text)
  }

  /** `currentIndex` when part `i` is reached: the sum of the lengths of the
      parts before it. */
  function Offset(parts: seq<string>, i: nat): nat
    requires i <= |parts|
  {
    if i == 0 then 0 else |parts[0]| + Offset(parts[1..], i - 1)
  }

  /** The running offset is where part `i` begins in the concatenation. */
  lemma {:induction false} OffsetIsPrefixLength(parts: seq<string>, i: nat)
    requires i <= |parts|
    ensures Offset(parts, i) == |Concat(parts[..i])|
    decreases i
  {
    if i > 0 {
      OffsetIsPrefixLength(parts[1..], i - 1);
      assert parts[..i] == [parts[0]] + parts[1..][..i - 1];
      ConcatCons(parts[0], parts[1..][..i - 1]);
    }
  }

  /** `currentIndex += part.length`, and every part lies inside the text. */
  lemma OffsetStep(parts: seq<string>, i: nat)
    requires i < |parts|
    ensures Offset(parts, i + 1) == Offset(parts, i) + |parts[i]|
    ensures Offset(parts, i) + |parts[i]| <= |Concat(parts)|
  {
    OffsetIsPrefixLength(parts, i);
    OffsetIsPrefixLength(parts, i + 1);
    ConcatPrefix(parts, i);
    assert parts == parts[..i + 1] + parts[i + 1..];
    ConcatAppend(parts[..i + 1], parts[i + 1..]);
  }

  /** `r` renders `parts`, laid out from offset `start`, against map `m`:
      part `i` is annotated exactly when its start offset is a key of `m`
      and the part is a word, and it then shows the blurb stored there. */
  ghost predicate RendersAs(parts: seq<string>, start: nat, m: map<int, Token>, r: seq<Part>) {
    && |r| == |parts|
    && (forall i :: 0 <= i < |r| ==> r[i].text == parts[i])
    && (forall i :: 0 <= i < |r| ==>
          (r[i].Annotated? <==> start + Offset(parts, i) in m && IsWordPart(parts[i])))
    && (forall i :: 0 <= i < |r| && r[i].Annotated? ==>
          r[i].blurb == m[start + Offset(parts, i)].blurb)
  }

  /** The element rendered for part `p` starting at offset `start`. */
  function RenderPart(p: string, start: nat, m: map<int, Token>): Part
  {
    if start in m && IsWordPart(p) then Annotated(p, m[start].blurb) else Plain(p)
  }

  /** `parts.forEach` with `currentIndex`: part `i` is annotated exactly when
      its start offset is a key of the map and the part is a word, and it then
      shows the blurb stored at that offset. */
  function Decorate(parts: seq<string>, start: nat, m: map<int, Token>): (r: seq<Part>)
    ensures RendersAs(parts, start, m, r)
    decreases |parts|
  {
    if |parts| == 0 then []
    else
      var rest := Decorate(parts[1..], start + |parts[0]|, m);
      DecorateCons(parts, start, m, rest);
      [RenderPart(parts[0], start, m)] + rest
  }

  /** The rendering of the first part, followed by the rendering of the rest
      from the offset just past it, renders the whole sequence. */
  lemma DecorateCons(parts: seq<string>, start: nat, m: map<int, Token>, rest: seq<Part>)
    requires |parts| > 0
    requires RendersAs(parts[1..], start + |parts[0]|, m, rest)
    ensures RendersAs(parts, start, m, [RenderPart(parts[0], start, m)] + rest)
  {
    var r := [RenderPart(parts[0], start, m)] + rest;
    forall i | 0 <= i < |r|
      ensures r[i].text == parts[i]
      ensures r[i].Annotated? <==> start + Offset(parts, i) in m && IsWordPart(parts[i])
      ensures r[i].Annotated? ==> r[i].blurb == m[start + Offset(parts, i)].blurb
    {
      if i > 0 {
        assert r[i] == rest[i - 1] && parts[i] == parts[1..][i - 1];
        assert Offset(parts, i) == |parts[0]| + Offset(parts[1..], i - 1);
      }
    }
  }

  /** `TokenizedMessage({content, tokenMetadata})`. */
  function Align(content: string, tokenMetadata: Option<seq<Token>>): (r: seq<Part>)
    ensures Concat(Texts(r)) == content
    ensures tokenMetadata.None? || |tokenMetadata.value| == 0 ==> r == [Plain(content)]
    ensures tokenMetadata.Some? && |tokenMetadata.value| > 0 ==> Texts(r) == Split(content)
  {
    if tokenMetadata.None? || |tokenMetadata.value| == 0 then
      assert Texts([Plain(content)]) == [content];
      SingletonConcat([content]);
      [Plain(content)]
    else
      var parts := Split(content);
      var r := Decorate(parts, 0, BuildMap(content, SortByIndex(tokenMetadata.value)));
      assert Texts(r) == parts;
      r
  }

  /** The offset at which rendered part `i` starts. */
  function PartStart(r: seq<Part>, i: nat): nat
    requires i <= |r|
  {
    Offset(Texts(r), i)
  }

  /** Which parts carry a tooltip, stated against the annotations directly:
      part `i` is annotated iff it is a word and some annotation claims its
      start offset (by index or by whole-word match); its blurb is that of the
      last claimant in ascending-index (stable) order. */
  lemma AlignAnnotation(content: string, meta: seq<Token>, i: nat)
    requires |meta| > 0
    requires i < |Align(content, Some(meta))|
    ensures var r := Align(content, Some(meta));
            r[i].Annotated? <==>
              IsWordPart(r[i].text) && exists t :: t in meta && Claims(content, t, PartStart(r, i))
    ensures var r := Align(content, Some(meta));
            r[i].Annotated? ==>
              exists j :: LastClaim(content, SortByIndex(meta), PartStart(r, i), j)
                          && r[i].blurb == SortByIndex(meta)[j].blurb
  {
    var r := Align(content, Some(meta));
    var parts := Split(content);
    var sorted := SortByIndex(meta);
    var m := BuildMap(content, sorted);
    var p := Offset(parts, i);
    assert r == Decorate(parts, 0, m);
    assert Texts(r) == parts;
    assert PartStart(r, i) == p;
    assert r[i].text == parts[i];
    assert r[i].Annotated? <==> p in m && IsWordPart(parts[i]);
    BuildMapLastWriteWins(content, sorted, p);
    SameMembersClaim(content, meta, sorted, p);
  }

  /** A token of `a` claims `p` iff a token of the permutation `b` does. */
  lemma SameMembersClaim(content: string, a: seq<Token>, b: seq<Token>, p: int)
    requires multiset(a) == multiset(b)
    ensures (exists t :: t in a && Claims(content, t, p))
            <==> (exists j :: 0 <= j < |b| && Claims(content, b[j], p))
  {
    if exists t :: t in a && Claims(content, t, p) {
      var t :| t in a && Claims(content, t, p);
      assert t in multiset(a);
      assert t in b;
      var j :| 0 <= j < |b| && b[j] == t;
    }
    if exists j :: 0 <= j < |b| && Claims(content, b[j], p) {
      var j :| 0 <= j < |b| && Claims(content, b[j], p);
      assert b[j] in multiset(b);
    }
  }

  /** Annotations whose offset is past the end of the message, and which
      carry no word to scan for, never annotate anything (and never fail). */
  lemma StaleIndicesIgnored(content: string, meta: seq<Token>)
    requires |meta| > 0
    requires forall t :: t in meta ==> t.index >= |content| && !HasWord(t)
    ensures forall i :: 0 <= i < |Align(content, Some(meta))| ==> Align(content, Some(meta))[i].Plain?
  {
    var r := Align(content, Some(meta));
    forall i | 0 <= i < |r| ensures r[i].Plain? {
      AlignAnnotation(content, meta, i);
      OffsetStep(Texts(r), i);
      assert IsWordPart(r[i].text) ==> |r[i].text| > 0;
    }
  }

  /** An annotation at an offset where no part starts never annotates: when
      no annotation claims any part's start offset, every part is plain. */
  lemma OffPartBoundaryIgnored(content: string, meta: seq<Token>)
    requires |meta| > 0
    requires forall t, i :: t in meta && 0 <= i < |Split(content)| ==> !Claims(content, t, Offset(Split(content), i))
    ensures forall i :: 0 <= i < |Align(content, Some(meta))| ==> Align(content, Some(meta))[i].Plain?
  {
    var r := Align(content, Some(meta));
    forall i | 0 <= i < |r| ensures r[i].Plain? {
      AlignAnnotation(content, meta, i);
    }
  }

  /** Empty parts (between two adjacent delimiters, or at either end) are
      never annotated. */
  lemma EmptyPartsPlain(content: string, meta: Option<seq<Token>>)
    ensures forall i :: 0 <= i < |Align(content, meta)| && Align(content, meta)[i].text == ""
                        ==> Align(content, meta)[i].Plain?
  {
    var r := Align(content, meta);
    forall i | 0 <= i < |r| && r[i].text == "" ensures r[i].Plain? {
      if meta.Some? && |meta.value| > 0 {
        var parts := Split(content);
        var m := BuildMap(content, SortByIndex(meta.value));
        assert r == Decorate(parts, 0, m);
        assert !IsWordPart(r[i].text);
      }
    }
  }

  /** An empty message still renders one (empty) part: the split of the
      empty string is the single empty string. */
  lemma EmptyContentOnePart(meta: Option<seq<Token>>)
    ensures Align("", meta) == [Plain("")]
  {
    SplitOfText("");
    var r := Align("", meta);
    if meta.Some? && |meta.value| > 0 {
      assert |r| == 1 && r[0].text == "";
      EmptyPartsPlain("", meta);
    }
  }

  /** In "a casa" the word "a" occurs at offsets 0, 3 and 5, but only the
      first is a whole word: the other two are inside or at the end of
      "casa". */
  lemma WholeWordExample()
    ensures forall p :: WholeWordAt("a casa", "a", p) <==> p == 0
  {
    var s := "a casa";
    forall p | WholeWordAt(s, "a", p) ensures p == 0 {
      assert s[p] == 'a';
      assert p == 0 || p == 3 || p == 5;
      assert IsWordChar(s[2]) && IsWordChar(s[4]);
    }
    assert s[0..1] == "a";
  }
}
