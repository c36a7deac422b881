/** The JavaScript string operations that the stock-table extractor, the settings code and the
    news tool rely on: `trim`, `replace` with a global literal pattern, the tag-stripping
    `replace(/<[^>]*>/g, '')`, `replace` with a string pattern (first occurrence only) and
    `toLowerCase`, together with the leftmost search for a literal that `exec` and `replace`
    perform. A string is a sequence of characters. */
module JsText {
  import opened Wrappers

  /** `pat` occurs in `s` starting at index `i`. */
  predicate OccursAt(s: string, pat: string, i: int) {
    0 <= i && i + |pat| <= |s| && s[i..i + |pat|] == pat
  }

  lemma {:induction false} OccursAtChar(s: string, c: char, i: int)
    ensures OccursAt(s, [c], i) <==> 0 <= i < |s| && s[i] == c
  {
    if 0 <= i < |s| {
      assert s[i..i + 1] == [s[i]];
    }
  }

  /** The leftmost search for a literal, as `exec` and `replace` perform it (the code never calls
      `indexOf`): the first index at or after `from` where `pat` occurs. */
  function IndexOf(s: string, pat: string, from: nat): (r: Option<nat>)
    ensures r.Some? ==> from <= r.value && OccursAt(s, pat, r.value)
    ensures r.Some? ==> forall k :: from <= k < r.value ==> !OccursAt(s, pat, k)
    ensures r.None? ==> forall k :: from <= k ==> !OccursAt(s, pat, k)
    decreases |s| - from
  {
    if from + |pat| > |s| then None
    else if s[from..from + |pat|] == pat then Some(from)
    else IndexOf(s, pat, from + 1)
  }

  // ---------------------------------------------------------------------------------------------
  // trim

  /** The characters `String.prototype.trim` removes: ECMAScript's WhiteSpace (tab, vertical tab,
      form feed, space, no-break space, byte-order mark and the space separators of Unicode)
      and LineTerminator (line feed, carriage return, line and paragraph separators). */
  predicate IsJsSpace(c: char) {
    c == ' ' || c == '\t' || c == '\n' || c == '\r' || c == '\U{B}' || c == '\U{C}'
    || c == '\U{A0}' || c == '\U{FEFF}' || c == '\U{1680}' || ('\U{2000}' <= c <= '\U{200A}')
    || c == '\U{2028}' || c == '\U{2029}' || c == '\U{202F}' || c == '\U{205F}' || c == '\U{3000}'
  }

  predicate AllSpace(s: string) {
    forall i :: 0 <= i < |s| ==> IsJsSpace(s[i])
  }

  /** Neither end of `s` is white space. */
  predicate Trimmed(s: string) {
    s == [] || (!IsJsSpace(s[0]) && !IsJsSpace(s[|s| - 1]))
  }

  /** `s.trimStart()`: `s` without its leading white space. */
  function TrimStart(s: string): (r: string)
    ensures |r| <= |s|
    ensures r == [] || !IsJsSpace(r[0])
  {
    if s != [] && IsJsSpace(s[0]) then TrimStart(s[1..]) else s
  }

  /** What `trimStart` removes is a run of white space at the front: the result is the suffix of
      `s` after it. */
  lemma {:induction false} TrimStartIsSuffix(s: string)
    ensures var r := TrimStart(s); r == s[|s| - |r|..] && AllSpace(s[..|s| - |r|])
  {
    if s != [] && IsJsSpace(s[0]) {
      TrimStartIsSuffix(s[1..]);
      var r := TrimStart(s[1..]);
      assert s[1..][|s| - 1 - |r|..] == s[|s| - |r|..];
      assert forall i :: 1 <= i < |s| - |r| ==> s[i] == s[1..][..|s| - 1 - |r|][i - 1];
    }
  }

  /** `s.trimEnd()`: the prefix of `s` left before its trailing white space. */
  function TrimEnd(s: string): (r: string)
    ensures |r| <= |s| && r == s[..|r|]
    ensures AllSpace(s[|r|..])
    ensures r == [] || !IsJsSpace(r[|r| - 1])
  {
    if s != [] && IsJsSpace(s[|s| - 1]) then TrimEnd(s[..|s| - 1]) else s
  }

  /** `s.trim()`. */
  function Trim(s: string): (r: string)
    ensures Trimmed(r)
    ensures Trimmed(s) ==> r == s
  {
    TrimEnd(TrimStart(s))
  }

  /** `trim` yields the empty string exactly when `s` is white space throughout. */
  lemma {:induction false} TrimEmptyIffAllSpace(s: string)
    ensures Trim(s) == [] <==> AllSpace(s)
  {
    var t := TrimStart(s);
    TrimStartIsSuffix(s);
    var n := |s| - |t|;
    assert t == [] || t[0] == s[n];
    if Trim(s) == [] {
      assert AllSpace(t[|TrimEnd(t)|..]);
      assert t == [];
      assert s[..n] == s;
    }
  }

  /** `trim` keeps a contiguous middle part of `s`: what it drops before and after is white space
      only, and what it keeps is exactly the characters in between. */
  lemma {:induction false} TrimKeepsMiddle(s: string)
    ensures var n := |s| - |TrimStart(s)|; var r := Trim(s);
      && n + |r| <= |s| && r == s[n..n + |r|]
      && AllSpace(s[..n]) && AllSpace(s[n + |r|..])
  {
    var t := TrimStart(s);
    TrimStartIsSuffix(s);
    var n := |s| - |t|;
    var r := TrimEnd(t);
    assert r == t[..|r|];
    assert s[n..n + |r|] == t[..|r|];
    assert s[n + |r|..] == t[|r|..];
  }

  /** Trimming cannot create an occurrence of a pattern. */
  lemma {:induction false} NoOccurrenceInTrim(s: string, pat: string)
    requires forall k :: !OccursAt(s, pat, k)
    ensures forall k :: !OccursAt(Trim(s), pat, k)
  {
    TrimKeepsMiddle(s);
    var n := |s| - |TrimStart(s)|;
    var r := Trim(s);
    forall k ensures !OccursAt(r, pat, k) {
      OccursInSlice(s, n, n + |r|, pat, k);
    }
  }

  /** An occurrence inside a slice is an occurrence in the whole string. */
  lemma {:induction false} OccursInSlice(s: string, i: int, j: int, pat: string, k: int)
    ensures 0 <= i <= j <= |s| && OccursAt(s[i..j], pat, k) ==> OccursAt(s, pat, i + k)
  {
    if 0 <= i <= j <= |s| && OccursAt(s[i..j], pat, k) {
      var t := s[i..j];
      assert t[k..k + |pat|] == pat;
      assert forall m :: 0 <= m < |pat| ==> s[i + k + m] == t[k + m] == pat[m];
      assert s[i + k..i + k + |pat|] == pat;
    }
  }

  // ---------------------------------------------------------------------------------------------
  // replace with a global literal pattern

  /** `s.replace(/pat/g, rep)` for a pattern without regular-expression metacharacters: the
      occurrences of `pat`, found left to right without overlap, each become `rep`. */
  function ReplaceAll(s: string, pat: string, rep: string): (r: string)
    requires pat != []
    ensures |s| < |pat| ==> r == s
    decreases |s|
  {
    if |s| < |pat| then s
    else if s[..|pat|] == pat then rep + ReplaceAll(s[|pat|..], pat, rep)
    else [s[0]] + ReplaceAll(s[1..], pat, rep)
  }

  /** Replacing by a string of the pattern's length keeps the length; by a shorter one, never
      lengthens the text. */
  lemma {:induction false} ReplaceAllLength(s: string, pat: string, rep: string)
    requires pat != []
    ensures |pat| == |rep| ==> |ReplaceAll(s, pat, rep)| == |s|
    ensures |rep| <= |pat| ==> |ReplaceAll(s, pat, rep)| <= |s|
    decreases |s|
  {
    if |s| < |pat| {
    } else if s[..|pat|] == pat {
      ReplaceAllLength(s[|pat|..], pat, rep);
    } else {
      ReplaceAllLength(s[1..], pat, rep);
    }
  }

  /** Text in which the pattern does not occur passes through unchanged. */
  lemma {:induction false} ReplaceAllWithoutPattern(s: string, pat: string, rep: string)
    requires pat != []
    requires forall k :: !OccursAt(s, pat, k)
    ensures ReplaceAll(s, pat, rep) == s
    decreases |s|
  {
    if |s| >= |pat| {
      assert !OccursAt(s, pat, 0);
      assert s[1..|s|] == s[1..];
      forall k ensures !OccursAt(s[1..], pat, k) {
        OccursInSlice(s, 1, |s|, pat, k);
      }
      ReplaceAllWithoutPattern(s[1..], pat, rep);
    }
  }

  lemma {:induction false} OccursAtSecond(s: string, pat: string, k: int)
    ensures OccursAt(s, pat, k) && |pat| >= 2 ==> s[k + 1] == pat[1]
  {
    if OccursAt(s, pat, k) && |pat| >= 2 {
      assert s[k + 1] == s[k..k + |pat|][1];
    }
  }

  /** A pattern of two or more characters does not occur when its first character appears only
      at `j` and is not followed there by the pattern's second character. */
  lemma {:induction false} NoOccurrenceAwayFrom(s: string, pat: string, j: int)
    requires |pat| >= 2
    requires forall k :: 0 <= k < |s| && k != j ==> s[k] != pat[0]
    requires 0 <= j && j + 1 < |s| ==> s[j + 1] != pat[1]
    ensures forall k :: !OccursAt(s, pat, k)
  {
    forall k ensures !OccursAt(s, pat, k) {
      OccursAtHead(s, pat, k);
      OccursAtSecond(s, pat, k);
    }
  }

  /** Text before the first occurrence of the pattern is copied as it is. */
  lemma {:induction false} ReplaceAllCopiesUpTo(s: string, pat: string, rep: string, i: nat)
    requires pat != [] && i <= |s|
    requires forall k :: 0 <= k < i ==> !OccursAt(s, pat, k)
    ensures ReplaceAll(s, pat, rep) == s[..i] + ReplaceAll(s[i..], pat, rep)
    decreases i
  {
    if i > 0 && |s| < |pat| {
      assert s[..i] + s[i..] == s;
    } else if i > 0 {
      assert !OccursAt(s, pat, 0);
      var t := s[1..];
      assert ReplaceAll(s, pat, rep) == [s[0]] + ReplaceAll(t, pat, rep);
      assert s[1..|s|] == t;
      forall k | 0 <= k < i - 1 ensures !OccursAt(t, pat, k) {
        OccursInSlice(s, 1, |s|, pat, k);
      }
      ReplaceAllCopiesUpTo(t, pat, rep, i - 1);
      assert t[i - 1..] == s[i..];
      assert [s[0]] + t[..i - 1] == s[..i];
    }
  }

  /** The global replacement, step by step: the text before the leftmost occurrence (the
      position `IndexOf(s, pat, 0)` finds) is kept, that occurrence becomes `rep`, and the
      replacement goes on after it. With no occurrence the text is unchanged
      (`ReplaceAllWithoutPattern`). */
  lemma {:induction false} ReplaceAllFromLeftmost(s: string, pat: string, rep: string, i: nat)
    requires pat != [] && OccursAt(s, pat, i)
    requires forall k :: 0 <= k < i ==> !OccursAt(s, pat, k)
    ensures ReplaceAll(s, pat, rep) == s[..i] + rep + ReplaceAll(s[i + |pat|..], pat, rep)
  {
    ReplaceAllCopiesUpTo(s, pat, rep, i);
    var t := s[i..];
    assert ReplaceAll(t, pat, rep) == rep + ReplaceAll(s[i + |pat|..], pat, rep) by {
      assert t[..|pat|] == pat;
      assert t[|pat|..] == s[i + |pat|..];
    }
  }

  /** A single occurrence, with the pattern's first character appearing nowhere else, is the
      only thing replaced. */
  lemma {:induction false} ReplaceAllSingleOccurrence(a: string, pat: string, b: string, rep: string)
    requires pat != [] && pat[0] !in a && pat[0] !in b
    ensures ReplaceAll(a + pat + b, pat, rep) == a + rep + b
  {
    var s := a + pat + b;
    var n := |a|;
    forall k | 0 <= k < n ensures !OccursAt(s, pat, k) {
      OccursAtHead(s, pat, k);
    }
    ReplaceAllCopiesUpTo(s, pat, rep, n);
    var t := s[n..];
    assert t == pat + b;
    assert t[..|pat|] == pat && t[|pat|..] == b;
    NoOccurrenceWithoutHead(b, pat);
    ReplaceAllWithoutPattern(b, pat, rep);
    assert s[..n] == a;
  }

  /** A pattern whose first character does not occur in `s` does not occur in `s`. */
  lemma {:induction false} NoOccurrenceWithoutHead(s: string, pat: string)
    requires pat != [] && pat[0] !in s
    ensures forall k :: !OccursAt(s, pat, k)
  {
    forall k ensures !OccursAt(s, pat, k) {
      OccursAtHead(s, pat, k);
    }
  }

  lemma {:induction false} OccursAtHead(s: string, pat: string, k: int)
    ensures OccursAt(s, pat, k) && pat != [] ==> s[k] == pat[0]
  {
    if OccursAt(s, pat, k) && pat != [] {
      assert s[k] == s[k..k + |pat|][0];
    }
  }

  /** While none of the first `n` characters of the result is a character of `rep`, those
      characters are copied unchanged from `s`. */
  lemma {:induction false} ReplaceAllCopiesPrefix(s: string, pat: string, rep: string, n: nat)
    requires pat != [] && rep != []
    requires n <= |ReplaceAll(s, pat, rep)|
    requires forall i :: 0 <= i < n ==> ReplaceAll(s, pat, rep)[i] !in rep
    ensures n <= |s| && ReplaceAll(s, pat, rep)[..n] == s[..n]
    decreases |s|
  {
    var r := ReplaceAll(s, pat, rep);
    if n == 0 || |s| < |pat| {
    } else if s[..|pat|] == pat {
      ReplaceAllStartsWithRep(s, pat, rep);
      assert false;
    } else {
      var tail := ReplaceAll(s[1..], pat, rep);
      assert r == [s[0]] + tail;
      assert forall i :: 0 <= i < n - 1 ==> tail[i] == r[i + 1];
      ReplaceAllCopiesPrefix(s[1..], pat, rep, n - 1);
      assert r[..n] == [s[0]] + tail[..n - 1];
    }
  }

  lemma {:induction false} ReplaceAllStartsWithRep(s: string, pat: string, rep: string)
    requires pat != [] && rep != []
    requires |s| >= |pat| && s[..|pat|] == pat
    ensures ReplaceAll(s, pat, rep)[0] in rep
  {
    assert ReplaceAll(s, pat, rep) == rep + ReplaceAll(s[|pat|..], pat, rep);
  }

  /** When the replacement shares no character with the pattern (and is not empty), no
      occurrence of the pattern is left in the result: a single pass decodes it completely. */
  lemma {:induction false} ReplaceAllLeavesNoPattern(s: string, pat: string, rep: string)
    requires pat != [] && rep != []
    requires forall c :: c in rep ==> c !in pat
    ensures forall k :: !OccursAt(ReplaceAll(s, pat, rep), pat, k)
    decreases |s|
  {
    if |s| < |pat| {
    } else if s[..|pat|] == pat {
      ReplaceAllLeavesNoPattern(s[|pat|..], pat, rep);
      NoPatternAfterReplacement(s, pat, rep);
    } else {
      ReplaceAllLeavesNoPattern(s[1..], pat, rep);
      NoPatternAfterCopy(s, pat, rep);
    }
  }

  lemma {:induction false} NoPatternAfterReplacement(s: string, pat: string, rep: string)
    requires pat != [] && rep != []
    requires forall c :: c in rep ==> c !in pat
    requires |s| >= |pat| && s[..|pat|] == pat
    requires forall k :: !OccursAt(ReplaceAll(s[|pat|..], pat, rep), pat, k)
    ensures forall k :: !OccursAt(ReplaceAll(s, pat, rep), pat, k)
  {
    var tail := ReplaceAll(s[|pat|..], pat, rep);
    assert ReplaceAll(s, pat, rep) == rep + tail;
    forall k ensures !OccursAt(rep + tail, pat, k) {
      OccursInConcat(rep, tail, pat, k);
    }
  }

  lemma {:induction false} NoPatternAfterCopy(s: string, pat: string, rep: string)
    requires pat != [] && rep != []
    requires forall c :: c in rep ==> c !in pat
    requires |s| >= |pat| && s[..|pat|] != pat
    requires forall k :: !OccursAt(ReplaceAll(s[1..], pat, rep), pat, k)
    ensures forall k :: !OccursAt(ReplaceAll(s, pat, rep), pat, k)
  {
    var tail := ReplaceAll(s[1..], pat, rep);
    assert ReplaceAll(s, pat, rep) == [s[0]] + tail;
    HeadFromCopiedPrefix(s, pat, rep);
    forall k ensures !OccursAt([s[0]] + tail, pat, k) {
      OccursInConcat([s[0]], tail, pat, k);
    }
  }

  /** An occurrence of `pat` in `a + b` either lies in `b` or starts inside `a` with `pat[0]`. */
  lemma {:induction false} OccursInConcat(a: string, b: string, pat: string, k: int)
    ensures OccursAt(a + b, pat, k) && k >= |a| ==> OccursAt(b, pat, k - |a|)
    ensures OccursAt(a + b, pat, k) && 0 <= k < |a| && pat != [] ==> a[k] == pat[0] && a[k] in a && pat[0] in pat
  {
    if OccursAt(a + b, pat, k) && k >= |a| {
      assert (a + b)[k..k + |pat|] == b[k - |a|..k - |a| + |pat|];
    }
    if OccursAt(a + b, pat, k) && 0 <= k < |a| && pat != [] {
      assert (a + b)[k..k + |pat|][0] == a[k];
    }
  }

  /** If a character that was copied, followed by the result of replacing in the rest, starts
      with `pat`, then the original text already started with `pat`. */
  lemma {:induction false} HeadFromCopiedPrefix(s: string, pat: string, rep: string)
    requires pat != [] && rep != [] && s != []
    requires forall c :: c in rep ==> c !in pat
    ensures OccursAt([s[0]] + ReplaceAll(s[1..], pat, rep), pat, 0) ==> OccursAt(s, pat, 0)
  {
    var tail := ReplaceAll(s[1..], pat, rep);
    var r := [s[0]] + tail;
    if OccursAt(r, pat, 0) {
      var n := |pat| - 1;
      forall i | 0 <= i < n ensures tail[i] !in rep {
        assert tail[i] == r[i + 1] == r[..|pat|][i + 1] == pat[i + 1];
        assert pat[i + 1] in pat;
      }
      ReplaceAllCopiesPrefix(s[1..], pat, rep, n);
      assert s[1..][..n] == s[1..|pat|];
      assert s[..|pat|] == [s[0]] + s[1..|pat|];
      assert r[..|pat|] == [s[0]] + tail[..n];
    }
  }

  // ---------------------------------------------------------------------------------------------
  // replace(/<[^>]*>/g, '')

  /** No `<` in `s` is followed, anywhere later, by a `>`: nothing in `s` looks like a tag. */
  predicate NoTag(s: string) {
    forall i, j :: 0 <= i < j < |s| && s[i] == '<' ==> s[j] != '>'
  }

  /** `s.replace(/<[^>]*>/g, '')`: scanning left to right, a `<` that has a `>` somewhere after it
      is removed together with everything up to and including the first such `>`; other
      characters are kept. */
  function StripTags(s: string): (r: string)
    ensures |r| <= |s|
    decreases |s|
  {
    if s == [] then []
    else if s[0] == '<' then
      match IndexOf(s, ">", 1)
      case Some(q) => StripTags(s[q + 1..])
      case None => [s[0]] + StripTags(s[1..])
    else
      [s[0]] + StripTags(s[1..])
  }

  /** Whatever `s` holds, no tag is left after stripping. */
  lemma {:induction false} StripTagsLeavesNoTag(s: string)
    ensures NoTag(StripTags(s))
    decreases |s|
  {
    if s == [] {
    } else if s[0] == '<' {
      match IndexOf(s, ">", 1)
      case Some(q) =>
        StripTagsLeavesNoTag(s[q + 1..]);
      case None =>
        forall k | 1 <= k < |s| ensures s[k] != '>' {
          OccursAtChar(s, '>', k);
        }
        StripTagsWithoutClose(s[1..]);
        StripTagsLeavesNoTag(s[1..]);
    } else {
      StripTagsLeavesNoTag(s[1..]);
    }
  }

  /** Text without a `>` passes through unchanged. */
  lemma {:induction false} StripTagsWithoutClose(s: string)
    requires forall k :: 0 <= k < |s| ==> s[k] != '>'
    ensures StripTags(s) == s
    decreases |s|
  {
    if s != [] {
      if s[0] == '<' {
        forall k ensures !OccursAt(s, ">", k) {
          OccursAtChar(s, '>', k);
        }
      }
      StripTagsWithoutClose(s[1..]);
    }
  }

  /** Text without tags passes through unchanged, so stripping twice is stripping once. */
  lemma {:induction false} StripTagsKeepsUntagged(s: string)
    requires NoTag(s)
    ensures StripTags(s) == s
    decreases |s|
  {
    if s != [] {
      if s[0] == '<' {
        StripTagsWithoutClose(s);
      } else {
        StripTagsKeepsUntagged(s[1..]);
      }
    }
  }

  /** Text before the first `<` is copied as it is. */
  lemma {:induction false} StripTagsCopiesUpTo(s: string, p: nat)
    requires p <= |s|
    requires forall k :: 0 <= k < p ==> s[k] != '<'
    ensures StripTags(s) == s[..p] + StripTags(s[p..])
    decreases p
  {
    if p > 0 {
      var t := s[1..];
      StripTagsCopiesUpTo(t, p - 1);
      StripTagsKeepsHead(s);
      ConsSlices(s, p);
    }
  }

  /** A first character other than `<` is kept. */
  lemma {:induction false} StripTagsKeepsHead(s: string)
    requires s != [] && s[0] != '<'
    ensures StripTags(s) == [s[0]] + StripTags(s[1..])
  {
  }

  /** Cutting `s` at `p` is keeping its head and cutting its tail at `p - 1`. */
  lemma {:induction false} ConsSlices(s: string, p: nat)
    requires 0 < p <= |s|
    ensures s[1..][p - 1..] == s[p..] && [s[0]] + s[1..][..p - 1] == s[..p]
  {
  }

  /** The tag removal, step by step: when the first `<` of `s`, at `p`, has a `>` after it, the
      first such `>` being at `q`, then `s[p..q]` and that `>` are removed, the text before `p` is
      kept, and removal goes on after `q`. Otherwise (`NoTag`) nothing is removed, as
      `StripTagsKeepsUntagged` states. */
  lemma {:induction false} StripTagsRemovesFirstTag(s: string, p: nat, q: nat)
    requires p < q < |s| && s[p] == '<' && s[q] == '>'
    requires forall k :: 0 <= k < p ==> s[k] != '<'
    requires forall k :: p < k < q ==> s[k] != '>'
    ensures StripTags(s) == s[..p] + StripTags(s[q + 1..])
  {
    StripTagsCopiesUpTo(s, p);
    var t := s[p..];
    OccursAtChar(t, '>', q - p);
    forall k | 1 <= k < q - p ensures !OccursAt(t, ">", k) {
      OccursAtChar(t, '>', k);
    }
    match IndexOf(t, ">", 1)
    case None =>
    case Some(r) =>
      assert r == q - p;
      assert t[r + 1..] == s[q + 1..];
  }

  lemma {:induction false} StripTagsIdempotent(s: string)
    ensures StripTags(StripTags(s)) == StripTags(s)
  {
    StripTagsLeavesNoTag(s);
    StripTagsKeepsUntagged(StripTags(s));
  }

  // ---------------------------------------------------------------------------------------------
  // replace with a string pattern, toLowerCase

  /** `s.replace(pat, rep)` with a string pattern: only the first occurrence is replaced. */
  function ReplaceFirst(s: string, pat: string, rep: string): (r: string)
    ensures IndexOf(s, pat, 0).None? ==> r == s
    ensures IndexOf(s, pat, 0).Some? ==> |r| == |s| - |pat| + |rep|
  {
    match IndexOf(s, pat, 0)
    case None => s
    case Some(i) => s[..i] + rep + s[i + |pat|..]
  }

  /** The occurrence replaced is the leftmost one, and the text around it is kept. */
  lemma {:induction false} ReplaceFirstAtLeftmost(s: string, pat: string, rep: string, i: nat)
    requires OccursAt(s, pat, i)
    requires forall k :: 0 <= k < i ==> !OccursAt(s, pat, k)
    ensures ReplaceFirst(s, pat, rep) == s[..i] + rep + s[i + |pat|..]
  {
  }

  /** A one-character pattern is found exactly when the character is in the text. */
  lemma {:induction false} IndexOfCharFound(s: string, c: char)
    ensures IndexOf(s, [c], 0).Some? <==> c in s
  {
    match IndexOf(s, [c], 0)
    case None =>
      forall i | 0 <= i < |s| ensures s[i] != c {
        OccursAtChar(s, c, i);
      }
    case Some(j) =>
      OccursAtChar(s, c, j);
  }

  function LowerChar(c: char): char {
    if 'A' <= c <= 'Z' then (c as int + 32) as char else c
  }

  /** `s.toLowerCase()`, on the ASCII letters. */
  function ToLowerCase(s: string): (r: string)
    ensures |r| == |s|
    ensures forall i :: 0 <= i < |s| ==> r[i] == LowerChar(s[i])
    ensures forall i :: 0 <= i < |r| ==> !('A' <= r[i] <= 'Z')
  {
    if s == [] then [] else [LowerChar(s[0])] + ToLowerCase(s[1..])
  }
}
