/** Character classes and string helpers shared by the frontend and backend
    models: the ECMAScript classes `\s` and `\w`, `String.prototype.trim`,
    and flattening / joining of string sequences. */
module Text {

  /** ECMAScript `\s`, which is also the set `String.prototype.trim` strips:
      the WhiteSpace characters (tab, vertical tab, form feed, space, no-break
      space, zero-width no-break space and the Unicode Zs category) and the
      LineTerminator characters (line feed, carriage return, line and
      paragraph separators). */
  predicate IsSpace(c: char) {
    || c == '\t' || c == '\n' || c == '\U{0B}' || c == '\U{0C}' || c == '\r'
    || c == ' ' || c == '\U{A0}' || c == '\U{1680}'
    || ('\U{2000}' <= c <= '\U{200A}')
    || c == '\U{2028}' || c == '\U{2029}' || c == '\U{202F}' || c == '\U{205F}'
    || c == '\U{3000}' || c == '\U{FEFF}'
  }

  /** ECMAScript `\w` without the `u` flag: `[A-Za-z0-9_]`. Accented letters
      such as `á` or `ñ` are NOT word characters. */
  predicate IsWordChar(c: char) {
    ('a' <= c <= 'z') || ('A' <= c <= 'Z') || ('0' <= c <= '9') || c == '_'
  }

  /** `/\w/.test(s)` */
  predicate HasWordChar(s: string) {
    exists i :: 0 <= i < |s| && IsWordChar(s[i])
  }

  predicate AllSpace(s: string) {
    forall i :: 0 <= i < |s| ==> IsSpace(s[i])
  }

  /** The first position at or after `i` that does not hold a space. */
  function SkipSpaces(s: string, i: nat): (k: nat)
    requires i <= |s|
    ensures i <= k <= |s|
    ensures forall j :: i <= j < k ==> IsSpace(s[j])
    ensures k < |s| ==> !IsSpace(s[k])
    decreases |s| - i
  {
    if i == |s| || !IsSpace(s[i]) then i else SkipSpaces(s, i + 1)
  }

  /** The smallest `k <= j` such that `s[k..j]` is all spaces. */
  function BackSpaces(s: string, j: nat): (k: nat)
    requires j <= |s|
    ensures k <= j
    ensures forall i :: k <= i < j ==> IsSpace(s[i])
    ensures k > 0 ==> !IsSpace(s[k - 1])
  {
    if j == 0 || !IsSpace(s[j - 1]) then j else BackSpaces(s, j - 1)
  }

  /** `String.prototype.trim`: the maximal infix of `s` that neither starts
      nor ends with a space; it starts at the first non-space and everything
      outside it is space. */
  function Trim(s: string): (r: string)
    ensures |r| == 0 <==> AllSpace(s)
    ensures |r| > 0 ==> !IsSpace(r[0]) && !IsSpace(r[|r| - 1])
    ensures SkipSpaces(s, 0) + |r| <= |s| && r == s[SkipSpaces(s, 0)..SkipSpaces(s, 0) + |r|]
    ensures forall i :: 0 <= i < |s| && !(SkipSpaces(s, 0) <= i < SkipSpaces(s, 0) + |r|)
                        ==> IsSpace(s[i])
  {
    var a := SkipSpaces(s, 0);
    var b := BackSpaces(s, |s|);
    if a == |s| then
      ""
    else
      assert !IsSpace(s[a]);
      assert a < b;
      s[a..b]
  }

  /** Trimming is idempotent. */
  lemma TrimIdempotent(s: string)
    ensures Trim(Trim(s)) == Trim(s)
  {
    var t := Trim(s);
    if |t| > 0 {
      var u := Trim(t);
      assert SkipSpaces(t, 0) == 0;
      assert u == t[0..|t|];
    }
  }

  /** Word characters are never spaces, so a string holding one is never
      blank after trimming. */
  lemma WordCharNotBlank(s: string)
    requires HasWordChar(s)
    ensures |Trim(s)| > 0
  {
    var i :| 0 <= i < |s| && IsWordChar(s[i]);
    assert !IsSpace(s[i]);
  }

  /** Concatenation of a sequence of strings (`parts.join("")`). */
  function Concat(parts: seq<string>): string
  {
    if |parts| == 0 then "" else Concat(parts[..|parts| - 1]) + parts[|parts| - 1]
  }

  lemma {:induction false} ConcatAppend(a: seq<string>, b: seq<string>)
    ensures Concat(a + b) == Concat(a) + Concat(b)
    decreases |b|
  {
    if |b| == 0 {
      assert a + b == a;
    } else {
      var b' := b[..|b| - 1];
      assert (a + b)[..|a + b| - 1] == a + b';
      ConcatAppend(a, b');
    }
  }

  lemma ConcatCons(p: string, rest: seq<string>)
    ensures Concat([p] + rest) == p + Concat(rest)
  {
    ConcatAppend([p], rest);
    assert [p][..0] == [];
  }

  /** The offset at which part `i` starts equals the total length of the parts
      before it, and the parts are laid end to end. */
  lemma ConcatPrefix(parts: seq<string>, i: nat)
    requires i < |parts|
    ensures Concat(parts[..i + 1]) == Concat(parts[..i]) + parts[i]
  {
    assert parts[..i + 1][..i] == parts[..i];
  }

  /** `sep.join(lines)` in Python. */
  function Join(lines: seq<string>, sep: string): string
  {
    if |lines| == 0 then ""
    else if |lines| == 1 then lines[0]
    else Join(lines[..|lines| - 1], sep) + sep + lines[|lines| - 1]
  }

  /** Joining `head` followed by `rest` puts exactly one separator before each
      element of `rest`. */
  lemma {:induction false} JoinCons(head: string, rest: seq<string>, sep: string)
    ensures Join([head] + rest, sep)
            == head + Concat(seq(|rest|, i requires 0 <= i < |rest| => sep + rest[i]))
    decreases |rest|
  {
    var tail := seq(|rest|, i requires 0 <= i < |rest| => sep + rest[i]);
    if |rest| == 0 {
    } else {
      var rest' := rest[..|rest| - 1];
      var tail' := seq(|rest'|, i requires 0 <= i < |rest'| => sep + rest'[i]);
      JoinCons(head, rest', sep);
      assert ([head] + rest)[..|[head] + rest| - 1] == [head] + rest';
      assert tail[..|tail| - 1] == tail';
    }
  }
}
