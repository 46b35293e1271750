/** The parts of Python's `str` type the text post-processing relies on:
    `isspace`, `strip`, `split()` without arguments, `' '.join`, `lower`
    (ASCII letters only), the `in` substring test and `replace` of one
    character. Strings are sequences of Unicode scalar values.

    The functions carry only the facts their own definitions need; what they
    mean is stated by the lemmas next to them, so that a proof pulls in only
    the facts it asks for. */
module PyStr {

  /** The characters for which Python's `str.isspace()` holds; `strip()` and
      `split()` without arguments use exactly this set. */
  predicate IsSpace(c: char) {
    || c == ' '
    || ('\t' <= c <= '\r')
    || ('\U{001C}' <= c <= '\U{001F}')
    || c == '\U{0085}'
    || c == '\U{00A0}'
    || c == '\U{1680}'
    || ('\U{2000}' <= c <= '\U{200A}')
    || c == '\U{2028}'
    || c == '\U{2029}'
    || c == '\U{202F}'
    || c == '\U{205F}'
    || c == '\U{3000}'
  }

  predicate AllSpace(s: string) {
    forall i | 0 <= i < |s| :: IsSpace(s[i])
  }

  predicate NoSpace(s: string) {
    forall i | 0 <= i < |s| :: !IsSpace(s[i])
  }

  /** One element of the list `split()` returns. */
  predicate IsWord(w: string) {
    |w| > 0 && NoSpace(w)
  }

  predicate AllWords(ws: seq<string>) {
    forall k | 0 <= k < |ws| :: IsWord(ws[k])
  }

  /** The shape `' '.join(s.split())` produces: the only whitespace is a
      single ASCII space between two non-space characters. */
  predicate IsNormalized(s: string) {
    && (forall i | 0 <= i < |s| :: IsSpace(s[i]) ==> s[i] == ' ')
    && (|s| > 0 ==> !IsSpace(s[0]) && !IsSpace(s[|s| - 1]))
    && (forall i | 0 <= i < |s| - 1 :: !(IsSpace(s[i]) && IsSpace(s[i + 1])))
  }

  lemma TakeThenDrop(t: string, n: nat)
    requires n <= |t|
    ensures t[..n] + t[n..] == t
  {
  }

  lemma AllSpaceDrop(t: string, n: nat)
    requires n <= |t|
    requires forall i | n <= i < |t| :: IsSpace(t[i])
    ensures AllSpace(t[n..])
  {
    assert forall i | 0 <= i < |t| - n :: t[n..][i] == t[n + i];
  }

  lemma DropFromAppend(t: string, z: string, n: nat)
    requires n <= |t|
    ensures (t + z)[n..] == t[n..] + z
  {
  }

  // ---------------------------------------------------------------------
  // strip()

  /** `s.lstrip()`. */
  function TrimLeft(s: string): (r: string)
    ensures |r| <= |s|
    ensures |r| > 0 ==> !IsSpace(r[0])
  {
    if |s| > 0 && IsSpace(s[0]) then TrimLeft(s[1..]) else s
  }

  /** `s.rstrip()`. */
  function TrimRight(s: string): (r: string)
    ensures |r| <= |s|
    ensures |r| > 0 ==> !IsSpace(r[|r| - 1])
  {
    if |s| > 0 && IsSpace(s[|s| - 1]) then TrimRight(s[..|s| - 1]) else s
  }

  /** `lstrip()` keeps a suffix and drops only whitespace. */
  lemma {:induction false} TrimLeftShape(s: string)
    ensures TrimLeft(s) == s[|s| - |TrimLeft(s)|..]
    ensures forall i | 0 <= i < |s| - |TrimLeft(s)| :: IsSpace(s[i])
    decreases |s|
  {
    if |s| > 0 && IsSpace(s[0]) {
      TrimLeftShape(s[1..]);
      var r := TrimLeft(s[1..]);
      assert s[1..][|s| - 1 - |r|..] == s[|s| - |r|..];
      forall i | 0 < i < |s| - |r|
        ensures IsSpace(s[i])
      {
        assert s[i] == s[1..][i - 1];
      }
    }
  }

  /** `rstrip()` keeps a prefix and drops only whitespace. */
  lemma {:induction false} TrimRightShape(s: string)
    ensures TrimRight(s) == s[..|TrimRight(s)|]
    ensures forall i | |TrimRight(s)| <= i < |s| :: IsSpace(s[i])
    decreases |s|
  {
    if |s| > 0 && IsSpace(s[|s| - 1]) {
      TrimRightShape(s[..|s| - 1]);
      var r := TrimRight(s[..|s| - 1]);
      assert s[..|s| - 1][..|r|] == s[..|r|];
      forall i | |r| <= i < |s| - 1
        ensures IsSpace(s[i])
      {
        assert s[i] == s[..|s| - 1][i];
      }
    }
  }

  /** `lstrip()` empties exactly the all-whitespace strings. */
  lemma TrimLeftEmpty(s: string)
    ensures |TrimLeft(s)| == 0 <==> AllSpace(s)
  {
    TrimLeftShape(s);
    var t := TrimLeft(s);
    if |t| > 0 {
      assert s[|s| - |t|] == t[0];
    }
  }

  /** `r` is `s` with its leading and trailing whitespace removed. */
  predicate IsStripOf(r: string, s: string) {
    && (|r| > 0 ==> !IsSpace(r[0]) && !IsSpace(r[|r| - 1]))
    && exists a | 0 <= a <= |s| - |r| ::
         r == s[a..a + |r|] && AllSpace(s[..a]) && AllSpace(s[a + |r|..])
  }

  /** `s.strip()`. */
  function Strip(s: string): (r: string)
    ensures |r| <= |s|
    ensures |r| > 0 ==> !IsSpace(r[0]) && !IsSpace(r[|r| - 1])
  {
    var t := TrimLeft(s);
    var r := TrimRight(t);
    if |r| > 0 then (assert r[0] == t[0] by { TrimRightShape(t); } r) else r
  }

  /** `strip()` removes leading and trailing whitespace and nothing else. */
  lemma StripSpec(s: string)
    ensures IsStripOf(Strip(s), s)
  {
    StripShape(s, TrimLeft(s), TrimRight(TrimLeft(s)));
  }

  lemma StripShape(s: string, t: string, r: string)
    requires t == TrimLeft(s) && r == TrimRight(t)
    ensures IsStripOf(r, s)
  {
    TrimLeftShape(s);
    TrimRightShape(t);
    var a := |s| - |t|;
    assert r == s[a..a + |r|];
    assert AllSpace(s[..a]);
    AllSpaceDrop(t, |r|);
    assert s[a + |r|..] == t[|r|..];
  }

  /** `strip()` returns the empty string exactly for all-whitespace strings. */
  lemma StripEmpty(s: string)
    ensures |Strip(s)| == 0 <==> AllSpace(s)
  {
    var t := TrimLeft(s);
    TrimLeftEmpty(s);
    if |t| > 0 {
      TrimRightShape(t);
      assert t[0] == TrimRight(t)[0];
    }
  }

  /** A string that neither starts nor ends with whitespace is its own strip. */
  lemma StripOfTrimmed(s: string)
    requires |s| == 0 || (!IsSpace(s[0]) && !IsSpace(s[|s| - 1]))
    ensures Strip(s) == s
  {
  }

  /** Stripping twice is stripping once. */
  lemma StripIdempotent(s: string)
    ensures Strip(Strip(s)) == Strip(s)
  {
    StripOfTrimmed(Strip(s));
  }

  // ---------------------------------------------------------------------
  // split() and ' '.join(...)

  /** The longest prefix of `s` without whitespace. */
  function Word(s: string): (w: string)
    ensures |w| <= |s|
    ensures |s| > 0 && !IsSpace(s[0]) ==> |w| > 0
  {
    if |s| == 0 || IsSpace(s[0]) then "" else [s[0]] + Word(s[1..])
  }

  lemma {:induction false} WordShape(s: string)
    ensures Word(s) == s[..|Word(s)|] && NoSpace(Word(s))
    ensures |Word(s)| < |s| ==> IsSpace(s[|Word(s)|])
    decreases |s|
  {
    if |s| > 0 && !IsSpace(s[0]) {
      WordShape(s[1..]);
      var w := Word(s[1..]);
      assert s[1..][..|w|] == s[1..|w| + 1];
      assert Word(s) == [s[0]] + w;
      forall i | 0 < i < |w| + 1
        ensures !IsSpace(Word(s)[i])
      {
        assert Word(s)[i] == w[i - 1];
      }
    }
  }

  /** `s.split()`: the maximal whitespace-free runs of `s`, in order. */
  function Split(s: string): seq<string>
    decreases |s|
  {
    var t := TrimLeft(s);
    if |t| == 0 then []
    else
      var w := Word(t);
      [w] + Split(t[|w|..])
  }

  /** `' '.join(ws)`. */
  function Join(ws: seq<string>): string {
    if |ws| == 0 then ""
    else if |ws| == 1 then ws[0]
    else ws[0] + " " + Join(ws[1..])
  }

  /** `' '.join(s.split())`: whitespace runs collapsed to one space, ends trimmed. */
  function Collapse(s: string): string {
    Join(Split(s))
  }

  /** `split()` returns no word exactly for all-whitespace strings. */
  lemma SplitEmpty(s: string)
    ensures |Split(s)| == 0 <==> AllSpace(s)
  {
    TrimLeftEmpty(s);
  }

  /** One step of `split()` on a string with a non-space character. */
  lemma SplitStep(s: string)
    requires !AllSpace(s)
    ensures var t := TrimLeft(s); var w := Word(t);
      0 < |w| <= |t| && Split(s) == [w] + Split(t[|w|..])
  {
    TrimLeftEmpty(s);
  }

  lemma ConsWords(w: string, ws: seq<string>)
    requires IsWord(w) && AllWords(ws)
    ensures AllWords([w] + ws)
  {
    assert forall k | 1 <= k < |[w] + ws| :: ([w] + ws)[k] == ws[k - 1];
  }

  /** Every element `split()` returns is a non-empty run without whitespace. */
  lemma {:induction false} SplitWords(s: string)
    ensures AllWords(Split(s))
    decreases |s|
  {
    if AllSpace(s) {
      SplitEmpty(s);
    } else {
      SplitStep(s);
      var t := TrimLeft(s);
      var w := Word(t);
      WordShape(t);
      SplitWords(t[|w|..]);
      ConsWords(w, Split(t[|w|..]));
    }
  }

  lemma {:induction false} WordOfPrefix(w: string, rest: string)
    requires NoSpace(w)
    requires |rest| == 0 || IsSpace(rest[0])
    ensures Word(w + rest) == w
    decreases |w|
  {
    if |w| > 0 {
      assert (w + rest)[1..] == w[1..] + rest;
      WordOfPrefix(w[1..], rest);
    } else {
      assert w + rest == rest;
    }
  }

  lemma SplitLeadingSpace(x: string)
    ensures Split(" " + x) == Split(x)
  {
    assert (" " + x)[1..] == x;
  }

  /** Leading whitespace of any kind and length does not change `split()`. */
  lemma {:induction false} SplitLeadingSpaces(p: string, x: string)
    requires AllSpace(p)
    ensures Split(p + x) == Split(x)
    decreases |p|
  {
    if |p| > 0 {
      assert (p + x)[1..] == p[1..] + x;
      assert TrimLeft(p + x) == TrimLeft(p[1..] + x);
      SplitLeadingSpaces(p[1..], x);
    } else {
      assert p + x == x;
    }
  }

  lemma SplitOneWord(w: string)
    requires IsWord(w)
    ensures Split(w) == [w]
  {
    WordOfPrefix(w, "");
    assert w + "" == w;
    assert TrimLeft(w) == w;
    assert w[|w|..] == "";
  }

  lemma SplitWordThenRest(w: string, j: string)
    requires IsWord(w)
    ensures Split(w + " " + j) == [w] + Split(j)
  {
    var s := w + " " + j;
    assert s == w + (" " + j);
    WordOfPrefix(w, " " + j);
    assert TrimLeft(s) == s;
    assert s[|w|..] == " " + j;
    SplitLeadingSpace(j);
  }

  /** A word followed by a run of whitespace is the first element of the
      split. */
  lemma SplitWordThenSpaces(w: string, m: string, j: string)
    requires IsWord(w) && AllSpace(m) && |m| > 0
    ensures Split(w + m + j) == [w] + Split(j)
  {
    var s := w + m + j;
    assert s == w + (m + j);
    WordOfPrefix(w, m + j);
    assert TrimLeft(s) == s;
    assert s[|w|..] == m + j;
    SplitLeadingSpaces(m, j);
  }

  /** Joining words with one space yields a normalised string, empty only
      when there are no words. */
  lemma {:induction false} JoinShape(ws: seq<string>)
    requires AllWords(ws)
    ensures IsNormalized(Join(ws))
    ensures |Join(ws)| == 0 <==> |ws| == 0
    decreases |ws|
  {
    if |ws| > 1 {
      JoinShape(ws[1..]);
      var w, j := ws[0], Join(ws[1..]);
      var s := w + " " + j;
      assert s == Join(ws);
      forall i | 0 <= i < |s| && IsSpace(s[i])
        ensures s[i] == ' '
      {
        if i > |w| { assert s[i] == j[i - |w| - 1]; }
      }
      forall i | 0 <= i < |s| - 1
        ensures !(IsSpace(s[i]) && IsSpace(s[i + 1]))
      {
        if i > |w| { assert s[i] == j[i - |w| - 1] && s[i + 1] == j[i - |w|]; }
      }
    }
  }

  /** Splitting what `' '.join` produced recovers the words: the round trip
      behind the idempotence of every normaliser in this model. */
  lemma {:induction false} SplitJoin(ws: seq<string>)
    requires AllWords(ws)
    ensures Split(Join(ws)) == ws
    decreases |ws|
  {
    if |ws| == 1 {
      SplitOneWord(ws[0]);
    } else if |ws| > 1 {
      var j := Join(ws[1..]);
      calc {
        Split(Join(ws));
        Split(ws[0] + " " + j);
        { SplitWordThenRest(ws[0], j); }
        [ws[0]] + Split(j);
        { SplitJoin(ws[1..]); }
        [ws[0]] + ws[1..];
        ws;
      }
    }
  }

  /** `' '.join(s.split())` is normalised, keeps the words of `s`, and is
      empty exactly when `s` is all whitespace. */
  lemma CollapseNormalized(s: string)
    ensures IsNormalized(Collapse(s))
    ensures Split(Collapse(s)) == Split(s)
    ensures |Collapse(s)| == 0 <==> AllSpace(s)
  {
    SplitWords(s);
    JoinShape(Split(s));
    SplitJoin(Split(s));
    SplitEmpty(s);
  }

  /** Collapsing twice is collapsing once. */
  lemma CollapseIdempotent(s: string)
    ensures Collapse(Collapse(s)) == Collapse(s)
  {
    CollapseNormalized(s);
  }

  lemma {:induction false} TrimLeftAppend(x: string, z: string)
    requires !AllSpace(x)
    ensures TrimLeft(x + z) == TrimLeft(x) + z
    decreases |x|
  {
    if IsSpace(x[0]) {
      assert (x + z)[1..] == x[1..] + z;
      assert !AllSpace(x[1..]) by {
        var i :| 0 <= i < |x| && !IsSpace(x[i]);
        assert x[1..][i - 1] == x[i];
      }
      TrimLeftAppend(x[1..], z);
    }
  }

  lemma {:induction false} WordAppend(t: string, z: string)
    requires |Word(t)| < |t| || |z| == 0 || IsSpace(z[0])
    ensures Word(t + z) == Word(t)
    decreases |t|
  {
    if |t| == 0 {
      assert t + z == z;
    } else if !IsSpace(t[0]) {
      assert (t + z)[1..] == t[1..] + z;
      WordAppend(t[1..], z);
    }
  }

  /** Trailing whitespace does not change what `split()` returns. */
  lemma {:induction false} SplitAppendSpaces(x: string, sp: string)
    requires AllSpace(sp)
    ensures Split(x + sp) == Split(x)
    decreases |x|
  {
    if AllSpace(x) {
      assert AllSpace(x + sp);
      SplitEmpty(x);
      SplitEmpty(x + sp);
    } else {
      var t := TrimLeft(x);
      var w := Word(t);
      assert !AllSpace(x + sp) by {
        var i :| 0 <= i < |x| && !IsSpace(x[i]);
        assert (x + sp)[i] == x[i];
      }
      TrimLeftAppend(x, sp);
      WordAppend(t, sp);
      SplitStep(x);
      SplitStep(x + sp);
      calc {
        Split(x + sp);
        [w] + Split((t + sp)[|w|..]);
        { DropFromAppend(t, sp, |w|); }
        [w] + Split(t[|w|..] + sp);
        { SplitAppendSpaces(t[|w|..], sp); }
        [w] + Split(t[|w|..]);
        Split(x);
      }
    }
  }

  lemma TrimLeftTwice(s: string)
    ensures TrimLeft(TrimLeft(s)) == TrimLeft(s)
  {
  }

  /** `split()` already ignores the whitespace `strip()` removes. */
  lemma SplitStrip(s: string)
    ensures Split(Strip(s)) == Split(s)
  {
    var t := TrimLeft(s);
    var r := TrimRight(t);
    TrimLeftTwice(s);
    assert Split(t) == Split(s);
    TrimRightShape(t);
    AllSpaceDrop(t, |r|);
    SplitAppendSpaces(r, t[|r|..]);
    TakeThenDrop(t, |r|);
  }

  // ---------------------------------------------------------------------
  // lower()

  predicate IsUpper(c: char) {
    'A' <= c <= 'Z'
  }

  /** ASCII lower-casing of one character. */
  function ToLower(c: char): char {
    if IsUpper(c) then (c as int + 32) as char else c
  }

  /** `s.lower()`, restricted to ASCII letters. */
  function Lower(s: string): string {
    seq(|s|, i requires 0 <= i < |s| => ToLower(s[i]))
  }

  predicate NoUpper(s: string) {
    forall i | 0 <= i < |s| :: !IsUpper(s[i])
  }

  /** Lower-casing leaves no upper-case letter, is the identity on strings
      without one, and is therefore idempotent. */
  lemma LowerShape(s: string)
    ensures NoUpper(Lower(s))
    ensures NoUpper(s) ==> Lower(s) == s
    ensures Lower(Lower(s)) == Lower(s)
  {
  }

  /** The lower-case alphabet, as a table independent of character codes. */
  const Alphabet: string := "abcdefghijklmnopqrstuvwxyz"

  /** `ToLower` sends the `k`-th capital to the `k`-th small letter. */
  lemma ToLowerTable(c: char)
    requires IsUpper(c)
    ensures ToLower(c) == Alphabet[c as int - 'A' as int]
  {
    var k := c as int - 'A' as int;
    assert Alphabet[k] as int == 'a' as int + k;
  }

  /** `lower()` keeps the length, turns each capital into its own small
      letter, and leaves every other character where it was. */
  lemma LowerSpec(s: string)
    ensures |Lower(s)| == |s|
    ensures forall i | 0 <= i < |s| && IsUpper(s[i]) :: Lower(s)[i] == Alphabet[s[i] as int - 'A' as int]
    ensures forall i | 0 <= i < |s| && !IsUpper(s[i]) :: Lower(s)[i] == s[i]
  {
    forall i | 0 <= i < |s| && IsUpper(s[i])
      ensures Lower(s)[i] == Alphabet[s[i] as int - 'A' as int]
    {
      ToLowerTable(s[i]);
    }
  }

  lemma NoUpperSlice(s: string, a: nat, b: nat)
    requires NoUpper(s) && a <= b <= |s|
    ensures NoUpper(s[a..b])
  {
    assert forall i | 0 <= i < b - a :: s[a..b][i] == s[a + i];
  }

  /** The first word `split()` takes, and what it leaves, inherit the
      absence of upper-case letters. */
  lemma NoUpperStep(s: string)
    requires NoUpper(s) && !AllSpace(s)
    ensures var t := TrimLeft(s); var w := Word(t);
      |w| <= |t| && NoUpper(w) && NoUpper(t[|w|..])
  {
    var t := TrimLeft(s);
    var w := Word(t);
    TrimLeftShape(s);
    NoUpperSlice(s, |s| - |t|, |s|);
    assert t == s[|s| - |t|..|s|];
    WordShape(t);
    NoUpperSlice(t, 0, |w|);
    NoUpperSlice(t, |w|, |t|);
    assert t[|w|..] == t[|w|..|t|];
  }

  lemma {:induction false} SplitNoUpper(s: string)
    requires NoUpper(s)
    ensures forall k | 0 <= k < |Split(s)| :: NoUpper(Split(s)[k])
    decreases |s|
  {
    if AllSpace(s) {
      SplitEmpty(s);
    } else {
      var t := TrimLeft(s);
      var w := Word(t);
      SplitStep(s);
      NoUpperStep(s);
      SplitNoUpper(t[|w|..]);
      var rest := Split(t[|w|..]);
      assert Split(s) == [w] + rest;
      assert forall k | 1 <= k < |[w] + rest| :: ([w] + rest)[k] == rest[k - 1];
    }
  }

  lemma {:induction false} JoinNoUpper(ws: seq<string>)
    requires forall k | 0 <= k < |ws| :: NoUpper(ws[k])
    ensures NoUpper(Join(ws))
    decreases |ws|
  {
    if |ws| > 1 {
      JoinNoUpper(ws[1..]);
    }
  }

  /** Collapsing whitespace introduces no upper-case letter. */
  lemma CollapseNoUpper(s: string)
    requires NoUpper(s)
    ensures NoUpper(Collapse(s))
  {
    SplitNoUpper(s);
    JoinNoUpper(Split(s));
  }

  // ---------------------------------------------------------------------
  // the `in` operator on strings, and replace()

  /** Python's `p in s` for strings: `p` occurs in `s` as a contiguous block. */
  predicate Contains(s: string, p: string) {
    exists i | 0 <= i <= |s| - |p| :: p <= s[i..]
  }

  /** An occurrence of `p` stays an occurrence after lower-casing both. */
  lemma ContainsLower(s: string, p: string)
    requires Contains(s, p)
    ensures Contains(Lower(s), Lower(p))
  {
    var i :| 0 <= i <= |s| - |p| && p <= s[i..];
    assert Lower(p) <= Lower(s)[i..];
  }

  /** Every character of an occurring block is a character of `s`. */
  lemma ContainsChars(s: string, p: string)
    requires Contains(s, p)
    ensures forall j | 0 <= j < |p| :: p[j] in s
  {
    var i :| 0 <= i <= |s| - |p| && p <= s[i..];
    forall j | 0 <= j < |p|
      ensures p[j] in s
    {
      assert s[i + j] == p[j];
    }
  }

  /** A block with a character `s` lacks does not occur in `s`. */
  lemma MissingChar(s: string, p: string, j: nat)
    requires j < |p| && p[j] !in s
    ensures !Contains(s, p)
  {
    if Contains(s, p) {
      ContainsChars(s, p);
    }
  }

  /** `s.replace(c, sub)` for a one-character `c`. */
  function ReplaceChar(s: string, c: char, sub: string): string {
    if |s| == 0 then ""
    else (if s[0] == c then sub else [s[0]]) + ReplaceChar(s[1..], c, sub)
  }

  /** Replacing by a text without `c` leaves no `c`, and a string without `c`
      is left alone. */
  lemma {:induction false} ReplaceCharSpec(s: string, c: char, sub: string)
    ensures c !in sub ==> c !in ReplaceChar(s, c, sub)
    ensures c !in s ==> ReplaceChar(s, c, sub) == s
    decreases |s|
  {
    if |s| > 0 {
      ReplaceCharSpec(s[1..], c, sub);
      assert s == [s[0]] + s[1..];
    }
  }

  /** Replacing in a text extended by one character extends the result by
      `sub` when that character is `c` and by the character itself
      otherwise: every `c` becomes `sub`, and everything else stays, in
      order. */
  lemma {:induction false} ReplaceCharAppend(s: string, x: char, c: char, sub: string)
    ensures ReplaceChar(s + [x], c, sub) == ReplaceChar(s, c, sub) + (if x == c then sub else [x])
    decreases |s|
  {
    if |s| == 0 {
      assert s + [x] == [x];
      assert ReplaceChar([x][1..], c, sub) == "";
    } else {
      assert (s + [x])[1..] == s[1..] + [x];
      ReplaceCharAppend(s[1..], x, c, sub);
    }
  }
}
