/**
 * The filename heuristic of updater.py: when an archive carries no usable
 * manifest id, a candidate registry id is derived from its file name by
 *   1. lower-casing it and removing a trailing ".jar",
 *   2. deleting every match of  [-_.]?(fabric|forge|quilt|neo\w*)[-_.]?
 *      (leftmost first, non-overlapping, like Python's re.sub),
 *   3. keeping what precedes the first match of  [-_.]?\d  (re.split, maxsplit 1),
 *   4. stripping '-', '_' and '.' from both ends.
 * The two regular expressions are written out as scanners over the string.
 * Characters are treated as ASCII: `\w`, `\d` and lower-casing cover ASCII only.
 */
module FileNames {
  import opened Sequences

  /** The bracket class [-_.] */
  predicate IsDelimiter(c: char) { c == '-' || c == '_' || c == '.' }

  /** \d restricted to ASCII */
  predicate IsDigit(c: char) { '0' <= c <= '9' }

  predicate IsUpper(c: char) { 'A' <= c <= 'Z' }

  /** \w restricted to ASCII: letters, digits and underscore */
  predicate IsWordChar(c: char) { 'a' <= c <= 'z' || IsUpper(c) || IsDigit(c) || c == '_' }

  function ToLower(c: char): (r: char)
    ensures !IsUpper(r)
    ensures !IsUpper(c) ==> r == c
  {
    if IsUpper(c) then (c as int + 32) as char else c
  }

  /** str.lower() on ASCII */
  function Lower(s: string): (r: string)
    ensures |r| == |s|
    ensures forall i :: 0 <= i < |s| ==> r[i] == ToLower(s[i])
  {
    if s == [] then [] else [ToLower(s[0])] + Lower(s[1..])
  }

  /** str.removesuffix(suffix) */
  function RemoveSuffix(s: string, suffix: string): (r: string)
    ensures r <= s
    ensures r + suffix == s || r == s
    ensures |suffix| > 0 && r == s ==> !(|suffix| <= |s| && s[|s| - |suffix|..] == suffix)
  {
    if |suffix| <= |s| && s[|s| - |suffix|..] == suffix then s[..|s| - |suffix|] else s
  }

  /** `w` occurs in `s` starting at index `i`. */
  predicate HasAt(s: string, i: nat, w: string)
  {
    i + |w| <= |s| && s[i..i + |w|] == w
  }

  /** Length of the greedy `\w*` match starting at index `i`. */
  function WordRun(s: string, i: nat): (n: nat)
    ensures i <= |s| ==> i + n <= |s|
    ensures i > |s| ==> n == 0
    ensures forall k :: i <= k < i + n ==> IsWordChar(s[k])
    ensures i + n < |s| ==> !IsWordChar(s[i + n])
    decreases |s| - i
  {
    if i < |s| && IsWordChar(s[i]) then 1 + WordRun(s, i + 1) else 0
  }

  /**
   * Length of the match of the group (fabric|forge|quilt|neo\w*) at index `i`,
   * alternatives tried in order; 0 when none of them matches there.
   */
  function TokenLength(s: string, i: nat): (n: nat)
    ensures n == 0 <==> !(HasAt(s, i, "fabric") || HasAt(s, i, "forge") || HasAt(s, i, "quilt") || HasAt(s, i, "neo"))
    ensures n > 0 ==> 3 <= n && i + n <= |s| && forall k :: i <= k < i + n ==> IsWordChar(s[k])
    ensures HasAt(s, i, "fabric") ==> n == 6
    ensures HasAt(s, i, "forge") ==> n == 5
    ensures HasAt(s, i, "quilt") ==> n == 5
    ensures HasAt(s, i, "neo") ==> n == 3 + WordRun(s, i + 3)
  {
    LoaderWordsExclusive(s, i);
    if HasAt(s, i, "fabric") then WordAt(s, i, "fabric"); 6
    else if HasAt(s, i, "forge") then WordAt(s, i, "forge"); 5
    else if HasAt(s, i, "quilt") then WordAt(s, i, "quilt"); 5
    else if HasAt(s, i, "neo") then WordAt(s, i, "neo"); 3 + WordRun(s, i + 3)
    else 0
  }

  /** The character at offset `k` of an occurrence of `w` is `w[k]`. */
  lemma HasAtChar(s: string, i: nat, w: string, k: nat)
    requires k < |w| && HasAt(s, i, w)
    ensures s[i + k] == w[k]
  {
    assert s[i..i + |w|][k] == s[i + k];
  }

  /** At most one of the four loader words starts at a given index. */
  lemma LoaderWordsExclusive(s: string, i: nat)
    ensures HasAt(s, i, "fabric") ==> !HasAt(s, i, "forge") && !HasAt(s, i, "quilt") && !HasAt(s, i, "neo")
    ensures HasAt(s, i, "forge") ==> !HasAt(s, i, "quilt") && !HasAt(s, i, "neo")
    ensures HasAt(s, i, "quilt") ==> !HasAt(s, i, "neo")
  {
    if HasAt(s, i, "fabric") {
      HasAtChar(s, i, "fabric", 1);
      if HasAt(s, i, "forge") { HasAtChar(s, i, "forge", 1); }
    }
    if HasAt(s, i, "fabric") || HasAt(s, i, "forge") || HasAt(s, i, "quilt") || HasAt(s, i, "neo") {
      if HasAt(s, i, "fabric") { HasAtChar(s, i, "fabric", 0); }
      if HasAt(s, i, "forge") { HasAtChar(s, i, "forge", 0); }
      if HasAt(s, i, "quilt") { HasAtChar(s, i, "quilt", 0); }
      if HasAt(s, i, "neo") { HasAtChar(s, i, "neo", 0); }
    }
  }

  /** An occurrence of a word of lower-case letters is a run of word characters. */
  lemma WordAt(s: string, i: nat, w: string)
    requires HasAt(s, i, w) && forall k :: 0 <= k < |w| ==> 'a' <= w[k] <= 'z'
    ensures forall k :: i <= k < i + |w| ==> IsWordChar(s[k])
  {
    forall k | i <= k < i + |w| ensures IsWordChar(s[k]) {
      assert s[k] == s[i..i + |w|][k - i];
    }
  }

  /** The optional trailing [-_.]? after the loader token ending at `e`. */
  function TrailingDelimiter(s: string, e: nat): (n: nat)
    ensures n <= 1
    ensures n == 1 <==> e < |s| && IsDelimiter(s[e])
  {
    if e < |s| && IsDelimiter(s[e]) then 1 else 0
  }

  /**
   * Length of the match of  [-_.]?(fabric|forge|quilt|neo\w*)[-_.]?  at the
   * start of `s`, or 0 if it does not match there. The leading delimiter is
   * greedy: it is taken when a token follows it, otherwise the token must
   * start at index 0.
   */
  function LoaderMatch(s: string): (n: nat)
    ensures n <= |s|
    ensures n > 0 <==> TokenLength(s, 0) > 0 || (|s| > 0 && IsDelimiter(s[0]) && TokenLength(s, 1) > 0)
    ensures |s| > 0 && IsDelimiter(s[0]) && TokenLength(s, 1) > 0 ==>
      n == 1 + TokenLength(s, 1) + TrailingDelimiter(s, 1 + TokenLength(s, 1))
    ensures !(|s| > 0 && IsDelimiter(s[0]) && TokenLength(s, 1) > 0) && TokenLength(s, 0) > 0 ==>
      n == TokenLength(s, 0) + TrailingDelimiter(s, TokenLength(s, 0))
  {
    if |s| > 0 && IsDelimiter(s[0]) && TokenLength(s, 1) > 0 then
      var e := 1 + TokenLength(s, 1);
      e + TrailingDelimiter(s, e)
    else if TokenLength(s, 0) > 0 then
      var e := TokenLength(s, 0);
      e + TrailingDelimiter(s, e)
    else
      0
  }

  /**
   * re.sub(r'[-_.]?(fabric|forge|quilt|neo\w*)[-_.]?', '', s): scan from the
   * left; where a match starts, drop it and resume after it; otherwise keep
   * the character and move one position on.
   */
  function RemoveLoaderTokens(s: string): (r: string)
    ensures |r| <= |s|
    decreases |s|
  {
    if s == [] then []
    else
      var m := LoaderMatch(s);
      if m > 0 then RemoveLoaderTokens(s[m..])
      else [s[0]] + RemoveLoaderTokens(s[1..])
  }

  /** re.sub only deletes: what remains is a subsequence of the input. */
  lemma {:induction false} RemoveLoaderTokensSubsequence(s: string)
    ensures IsSubsequence(RemoveLoaderTokens(s), s)
    decreases |s|
  {
    if s != [] {
      var m := LoaderMatch(s);
      if m > 0 {
        RemoveLoaderTokensSubsequence(s[m..]);
        SubsequenceDrop(RemoveLoaderTokens(s[m..]), s, m);
      } else {
        RemoveLoaderTokensSubsequence(s[1..]);
      }
    }
  }

  lemma {:induction false} SubsequenceDrop(r: string, s: string, m: nat)
    requires m <= |s|
    requires IsSubsequence(r, s[m..])
    ensures IsSubsequence(r, s)
    decreases m
  {
    if m > 0 {
      assert s[1..][m - 1..] == s[m..];
      SubsequenceDrop(r, s[1..], m - 1);
    }
  }

  /** No loader token occurs anywhere: re.sub leaves the string as it is. */
  lemma {:induction false} RemoveLoaderTokensNoMatch(s: string)
    requires forall i :: 0 <= i <= |s| ==> LoaderMatch(s[i..]) == 0
    ensures RemoveLoaderTokens(s) == s
    decreases |s|
  {
    if s != [] {
      assert s[0..] == s;
      forall i | 0 <= i <= |s[1..]| ensures LoaderMatch(s[1..][i..]) == 0 {
        assert s[1..][i..] == s[i + 1..];
      }
      RemoveLoaderTokensNoMatch(s[1..]);
    }
  }

  /** The pattern [-_.]?\d matches starting at index `i`. */
  predicate VersionStartsAt(s: string, i: nat)
    requires i < |s|
  {
    IsDigit(s[i]) || (IsDelimiter(s[i]) && i + 1 < |s| && IsDigit(s[i + 1]))
  }

  /**
   * re.split(r'[-_.]?\d', s, 1)[0]: the prefix before the leftmost match,
   * or all of `s` when there is none.
   */
  function BeforeVersion(s: string): (r: string)
    ensures r <= s
    ensures forall k :: 0 <= k < |r| ==> !VersionStartsAt(s, k)
    ensures |r| < |s| ==> VersionStartsAt(s, |r|)
    ensures forall k :: 0 <= k < |r| ==> !IsDigit(r[k])
  {
    if s == [] then []
    else if VersionStartsAt(s, 0) then []
    else
      var rest := BeforeVersion(s[1..]);
      assert forall k :: 0 < k < |s| ==> (VersionStartsAt(s, k) <==> VersionStartsAt(s[1..], k - 1));
      [s[0]] + rest
  }

  /** str.lstrip("-_.") */
  function TrimStart(s: string): (r: string)
    ensures |r| <= |s| && r == s[|s| - |r|..]
    ensures r == [] || !IsDelimiter(r[0])
    ensures forall k :: 0 <= k < |s| - |r| ==> IsDelimiter(s[k])
  {
    if s != [] && IsDelimiter(s[0]) then TrimStart(s[1..]) else s
  }

  /** str.rstrip("-_.") */
  function TrimEnd(s: string): (r: string)
    ensures r <= s
    ensures r == [] || !IsDelimiter(r[|r| - 1])
    ensures forall k :: |r| <= k < |s| ==> IsDelimiter(s[k])
  {
    if s != [] && IsDelimiter(s[|s| - 1]) then TrimEnd(s[..|s| - 1]) else s
  }

  /** str.strip("-_."): a contiguous piece of `s`; only delimiters were cut off. */
  function Strip(s: string): (r: string)
    ensures r == [] || (!IsDelimiter(r[0]) && !IsDelimiter(r[|r| - 1]))
  {
    TrimEnd(TrimStart(s))
  }

  /** Strip returns a contiguous piece of `s`, starting where TrimStart starts. */
  lemma StripSlice(s: string)
    ensures var i := |s| - |TrimStart(s)|;
      var r := Strip(s);
      i + |r| <= |s| && forall k :: 0 <= k < |r| ==> r[k] == s[i + k]
  {
    PieceOf(s, TrimStart(s), Strip(s));
  }

  /** Strip cut off only delimiters, on either side of the piece it returns. */
  lemma StripCut(s: string)
    ensures var i := |s| - |TrimStart(s)|;
      var r := Strip(s);
      && (forall k :: 0 <= k < i ==> IsDelimiter(s[k]))
      && (forall k :: i + |r| <= k < |s| ==> IsDelimiter(s[k]))
  {
    var t := TrimStart(s);
    PieceOf(s, t, t);
    forall k | |s| - |t| + |Strip(s)| <= k < |s| ensures IsDelimiter(s[k]) {
      assert s[k] == t[k - (|s| - |t|)];
    }
  }

  /** A prefix `r` of a suffix `t` of `s` is the piece of `s` where `t` starts. */
  lemma PieceOf(s: string, t: string, r: string)
    requires |t| <= |s| && t == s[|s| - |t|..] && r <= t
    ensures forall k :: 0 <= k < |r| ==> r[k] == s[|s| - |t| + k]
  {
    forall k | 0 <= k < |r| ensures r[k] == s[|s| - |t| + k] {
      assert r[k] == t[k];
    }
  }

  /** No character of `s` is an upper-case letter. */
  ghost predicate NoUpper(s: string) { forall k :: 0 <= k < |s| ==> !IsUpper(s[k]) }

  /** No character of `s` is a digit. */
  ghost predicate NoDigit(s: string) { forall k :: 0 <= k < |s| ==> !IsDigit(s[k]) }

  lemma NoUpperSubsequence(sub: string, s: string)
    requires IsSubsequence(sub, s) && NoUpper(s)
    ensures NoUpper(sub)
  {
    SubsequenceElements(sub, s);
    forall k | 0 <= k < |sub| ensures !IsUpper(sub[k]) {
      assert sub[k] in s;
    }
  }

  /**
   * The candidate id derived from an archive's file name (updater.py lines 79-80).
   * It never contains a digit or an upper-case letter, and it neither starts
   * nor ends with '-', '_' or '.'.
   */
  function CandidateFromFilename(filename: string): (r: string)
    ensures NoDigit(r) && NoUpper(r)
    ensures r == [] || (!IsDelimiter(r[0]) && !IsDelimiter(r[|r| - 1]))
  {
    var lowered := RemoveSuffix(Lower(filename), ".jar");
    var stripped := RemoveLoaderTokens(lowered);
    var prefix := BeforeVersion(stripped);
    LoweredNoUpper(filename);
    RemoveLoaderTokensSubsequence(lowered);
    NoUpperSubsequence(stripped, lowered);
    assert NoUpper(prefix) && NoDigit(prefix);
    StripKeepsCharacters(prefix);
    Strip(prefix)
  }

  lemma LoweredNoUpper(filename: string)
    ensures NoUpper(RemoveSuffix(Lower(filename), ".jar"))
  {
    var l := Lower(filename);
    var r := RemoveSuffix(l, ".jar");
    forall k | 0 <= k < |r| ensures !IsUpper(r[k]) {
      assert r[k] == l[k];
    }
  }

  lemma StripKeepsCharacters(s: string)
    requires NoUpper(s) && NoDigit(s)
    ensures NoUpper(Strip(s)) && NoDigit(Strip(s))
  {
    var t := TrimStart(s);
    TrimStartKeepsCharacters(s);
    TrimEndKeepsCharacters(t);
  }

  lemma {:induction false} TrimStartKeepsCharacters(s: string)
    requires NoUpper(s) && NoDigit(s)
    ensures NoUpper(TrimStart(s)) && NoDigit(TrimStart(s))
    decreases |s|
  {
    if s != [] && IsDelimiter(s[0]) {
      var tail := s[1..];
      forall k | 0 <= k < |tail| ensures !IsUpper(tail[k]) && !IsDigit(tail[k]) {
        assert tail[k] == s[k + 1];
      }
      TrimStartKeepsCharacters(tail);
    }
  }

  lemma {:induction false} TrimEndKeepsCharacters(s: string)
    requires NoUpper(s) && NoDigit(s)
    ensures NoUpper(TrimEnd(s)) && NoDigit(TrimEnd(s))
    decreases |s|
  {
    if s != [] && IsDelimiter(s[|s| - 1]) {
      var init := s[..|s| - 1];
      forall k | 0 <= k < |init| ensures !IsUpper(init[k]) && !IsDigit(init[k]) {
        assert init[k] == s[k];
      }
      TrimEndKeepsCharacters(init);
    }
  }

  /** A string made of characters that can neither start a loader token nor precede one. */
  ghost predicate Plain(s: string)
  {
    forall k :: 0 <= k < |s| ==> s[k] != 'f' && s[k] != 'q' && s[k] != 'n'
  }

  lemma HasAtFirst(s: string, i: nat, w: string)
    requires |w| > 0
    ensures HasAt(s, i, w) ==> s[i] == w[0]
  {
    if HasAt(s, i, w) {
      assert s[i..i + |w|][0] == s[i];
    }
  }

  /** No loader token can start at index `i` when `s[i]` is not 'f', 'q' or 'n'. */
  lemma NoTokenAt(s: string, i: nat)
    requires i < |s| && s[i] != 'f' && s[i] != 'q' && s[i] != 'n'
    ensures TokenLength(s, i) == 0
  {
    HasAtFirst(s, i, "fabric");
    HasAtFirst(s, i, "forge");
    HasAtFirst(s, i, "quilt");
    HasAtFirst(s, i, "neo");
  }

  lemma PlainNoMatch(s: string)
    requires s != [] && Plain(s)
    ensures LoaderMatch(s) == 0
  {
    NoTokenAt(s, 0);
    if |s| > 1 {
      NoTokenAt(s, 1);
    }
  }

  /** Without any 'f', 'q' or 'n' there is nothing for re.sub to remove. */
  lemma {:induction false} RemoveLoaderTokensPlain(s: string)
    requires Plain(s)
    ensures RemoveLoaderTokens(s) == s
    decreases |s|
  {
    if s != [] {
      PlainNoMatch(s);
      RemoveLoaderTokensPlain(s[1..]);
    }
  }

  /** Putting the first character back in front of the kept prefix of the rest. */
  lemma Reassemble(s: string, n: nat, whole: string, rest: string, tail: string)
    requires 0 < n <= |s|
    requires whole == [s[0]] + rest
    requires rest == s[1..][..n - 1] + tail
    ensures whole == s[..n] + tail
  {
    assert [s[0]] + s[1..][..n - 1] == s[..n];
  }

  /** Where no match starts, re.sub keeps the character. */
  lemma KeepUnmatched(s: string)
    requires s != [] && LoaderMatch(s) == 0
    ensures RemoveLoaderTokens(s) == [s[0]] + RemoveLoaderTokens(s[1..])
  {
  }

  lemma NoMatchTail(s: string, n: nat)
    requires 0 < n <= |s| && forall k :: 0 <= k < n ==> LoaderMatch(s[k..]) == 0
    ensures forall k :: 0 <= k < n - 1 ==> LoaderMatch(s[1..][k..]) == 0
  {
    forall k | 0 <= k < n - 1 ensures LoaderMatch(s[1..][k..]) == 0 {
      assert s[1..][k..] == s[k + 1..];
    }
  }

  /** A prefix in which no match starts is kept as it is. */
  lemma {:induction false} RemoveLoaderTokensPrefix(s: string, n: nat)
    requires n <= |s| && forall k :: 0 <= k < n ==> LoaderMatch(s[k..]) == 0
    ensures RemoveLoaderTokens(s) == s[..n] + RemoveLoaderTokens(s[n..])
    decreases n
  {
    if n == 0 {
      assert s[..0] + RemoveLoaderTokens(s[0..]) == RemoveLoaderTokens(s);
    } else {
      assert s[0..] == s;
      KeepUnmatched(s);
      var q := s[1..];
      NoMatchTail(s, n);
      RemoveLoaderTokensPrefix(q, n - 1);
      assert q[n - 1..] == s[n..];
      Reassemble(s, n, RemoveLoaderTokens(s), RemoveLoaderTokens(q), RemoveLoaderTokens(s[n..]));
    }
  }

  /**
   * The leftmost match is deleted: when no match starts before index `i` and
   * one starts at `i`, re.sub keeps `s[..i]`, drops the match, and goes on
   * after it.
   */
  lemma RemoveLeftmostMatch(s: string, i: nat)
    requires i < |s| && forall k :: 0 <= k < i ==> LoaderMatch(s[k..]) == 0
    requires LoaderMatch(s[i..]) > 0
    ensures RemoveLoaderTokens(s) == s[..i] + RemoveLoaderTokens(s[i + LoaderMatch(s[i..])..])
  {
    var t := s[i..];
    RemoveLoaderTokensPrefix(s, i);
    DropMatch(t);
    assert t[LoaderMatch(t)..] == s[i + LoaderMatch(t)..];
  }

  /** A match at the front is deleted and re.sub goes on after it. */
  lemma DropMatch(t: string)
    requires LoaderMatch(t) > 0
    ensures RemoveLoaderTokens(t) == RemoveLoaderTokens(t[LoaderMatch(t)..])
  {
  }

  lemma LowerKeeps(s: string)
    requires NoUpper(s)
    ensures Lower(s) == s
  {
  }

  /** Only lower-case ASCII letters. */
  ghost predicate LowerLetters(s: string)
  {
    forall k :: 0 <= k < |s| ==> 'a' <= s[k] <= 'z'
  }

  /** BeforeVersion keeps a run of letters that a version number follows. */
  lemma BeforeVersionLetters(p: string, v: string)
    requires LowerLetters(p) && v != [] && IsDigit(v[0])
    ensures BeforeVersion(p + v) == p
  {
    var s := p + v;
    var r := BeforeVersion(s);
    assert VersionStartsAt(s, |p|);
    forall k | 0 <= k < |p| ensures !VersionStartsAt(s, k) {
      assert s[k] == p[k];
    }
    assert |r| == |p|;
  }

  lemma JarNameLowered(lowered: string)
    requires NoUpper(lowered)
    ensures RemoveSuffix(Lower(lowered + ".jar"), ".jar") == lowered
  {
    var name := lowered + ".jar";
    assert NoUpper(name) by {
      forall k | 0 <= k < |name| ensures !IsUpper(name[k]) {
        if k < |lowered| { assert name[k] == lowered[k]; }
        else { assert name[k] == ".jar"[k - |lowered|]; }
      }
    }
    LowerKeeps(name);
    assert name[|name| - 4..] == ".jar";
  }

  /** None of the words fabric, forge, quilt or neo occurs in `s`. */
  ghost predicate NoLoaderWord(s: string)
  {
    forall i :: 0 <= i < |s| ==> TokenLength(s, i) == 0
  }

  /** A word of letters found where letters meet a '-' lies within the letters. */
  lemma WordWithinLetters(p: string, t: string, k: nat, w: string)
    requires LowerLetters(p) && LowerLetters(w) && k < |p|
    requires t != [] && t[0] == '-'
    ensures HasAt((p + t)[k..], 0, w) ==> HasAt(p, k, w)
  {
    var s := (p + t)[k..];
    assert s[|p| - k] == t[0];
    if HasAt(s, 0, w) {
      assert forall j :: 0 <= j < |w| ==> s[j] == s[0..|w|][j];
      assert |w| <= |p| - k;
      assert s[0..|w|] == p[k..k + |w|];
    }
  }

  /** No match starts inside a run of letters free of loader words that a '-' follows. */
  lemma NoMatchInLetters(p: string, t: string, k: nat)
    requires LowerLetters(p) && NoLoaderWord(p) && k < |p|
    requires t != [] && t[0] == '-'
    ensures LoaderMatch((p + t)[k..]) == 0
  {
    assert TokenLength(p, k) == 0;
    WordWithinLetters(p, t, k, "fabric");
    WordWithinLetters(p, t, k, "forge");
    WordWithinLetters(p, t, k, "quilt");
    WordWithinLetters(p, t, k, "neo");
    assert (p + t)[k..][0] == p[k];
  }

  lemma LettersUnmatched(p: string, t: string)
    requires LowerLetters(p) && NoLoaderWord(p)
    requires t != [] && t[0] == '-'
    ensures forall k :: 0 <= k < |p| ==> LoaderMatch((p + t)[k..]) == 0
  {
    forall k | 0 <= k < |p| ensures LoaderMatch((p + t)[k..]) == 0 {
      NoMatchInLetters(p, t, k);
    }
  }

  /** The three loader words that match without a tail: fabric, forge and quilt. */
  predicate FixedLoaderWord(w: string)
  {
    w == "fabric" || w == "forge" || w == "quilt"
  }

  /**
   * The shape of the override table's example: a name made of letters that
   * contains none of the loader words, '-', one of fabric, forge or quilt,
   * '-', a version number that starts with a digit and has no 'f', 'q' or
   * 'n', and ".jar": the candidate is the name.
   */
  lemma {:induction false} LoaderJar(p: string, w: string, v: string)
    requires p != [] && LowerLetters(p) && NoLoaderWord(p)
    requires FixedLoaderWord(w)
    requires v != [] && IsDigit(v[0]) && Plain(v) && NoUpper(v)
    ensures CandidateFromFilename(p + "-" + w + "-" + v + ".jar") == p
  {
    var lowered := p + ("-" + w + "-" + v);
    assert p + "-" + w + "-" + v + ".jar" == lowered + ".jar";
    LoaderNameLowered(p, w, v);
    JarNameLowered(lowered);
    LoaderTokenDropped(p, w, v);
    CandidateOfParts(lowered + ".jar", lowered, p, v);
  }

  /**
   * When the lowered name loses its loader tokens and leaves a name of
   * letters followed by a version that starts with a digit, the candidate is
   * that name.
   */
  lemma CandidateOfParts(filename: string, lowered: string, p: string, v: string)
    requires RemoveSuffix(Lower(filename), ".jar") == lowered
    requires RemoveLoaderTokens(lowered) == p + v
    requires p != [] && LowerLetters(p) && v != [] && IsDigit(v[0])
    ensures CandidateFromFilename(filename) == p
  {
    BeforeVersionLetters(p, v);
    StripUndelimited(p);
  }

  /** strip leaves a string alone when neither end is a delimiter. */
  lemma StripUndelimited(p: string)
    requires p != [] && !IsDelimiter(p[0]) && !IsDelimiter(p[|p| - 1])
    ensures Strip(p) == p
  {
    assert TrimStart(p) == p;
  }

  lemma NoUpperConcat(a: string, b: string)
    requires NoUpper(a) && NoUpper(b)
    ensures NoUpper(a + b)
  {
    forall k | 0 <= k < |a + b| ensures !IsUpper((a + b)[k]) {
      if k < |a| { assert (a + b)[k] == a[k]; }
      else { assert (a + b)[k] == b[k - |a|]; }
    }
  }

  lemma LoaderNameLowered(p: string, w: string, v: string)
    requires LowerLetters(p) && FixedLoaderWord(w) && NoUpper(v)
    ensures NoUpper(p + ("-" + w + "-" + v))
  {
    assert NoUpper("-" + w + "-");
    NoUpperConcat("-" + w + "-", v);
    NoUpperConcat(p, "-" + w + "-" + v);
  }

  /** The match "-<word>-" in front of a version is deleted whole. */
  lemma LoaderTokenRemoved(w: string, v: string)
    requires FixedLoaderWord(w) && Plain(v)
    ensures RemoveLoaderTokens("-" + w + "-" + v) == v
  {
    var tail := "-" + w + "-" + v;
    assert tail[1..1 + |w|] == w;
    assert TokenLength(tail, 1) == |w|;
    assert tail[1 + |w|] == '-';
    assert LoaderMatch(tail) == |w| + 2;
    assert tail[|w| + 2..] == v;
    RemoveLoaderTokensPlain(v);
  }

  /** re.sub keeps the name and drops "-<word>-" in front of the version. */
  lemma LoaderTokenDropped(p: string, w: string, v: string)
    requires LowerLetters(p) && NoLoaderWord(p) && FixedLoaderWord(w) && Plain(v)
    ensures RemoveLoaderTokens(p + ("-" + w + "-" + v)) == p + v
  {
    var tail := "-" + w + "-" + v;
    var lowered := p + tail;
    assert lowered[..|p|] == p && lowered[|p|..] == tail;
    LettersUnmatched(p, tail);
    RemoveLoaderTokensPrefix(lowered, |p|);
    LoaderTokenRemoved(w, v);
  }

  /** A name with an 'n' that starts no loader word: "modmenu-fabric-1.0.jar" gives "modmenu". */
  lemma ModMenuFilename()
    ensures CandidateFromFilename("modmenu-fabric-1.0.jar") == "modmenu"
  {
    var p := "modmenu";
    forall i | 0 <= i < |p| ensures TokenLength(p, i) == 0 {
      if i != 5 {
        NoTokenAt(p, i);
      } else {
        HasAtFirst(p, i, "fabric");
        HasAtFirst(p, i, "forge");
        HasAtFirst(p, i, "quilt");
      }
    }
    assert "modmenu" + "-" + "fabric" + "-" + "1.0" + ".jar" == "modmenu-fabric-1.0.jar";
    LoaderJar(p, "fabric", "1.0");
  }

  /**
   * A NeoForge-style archive: a name as in LoaderJar, "-neo", a run of word
   * characters, '.', and a version: `neo\w*` swallows the whole run, because
   * '_' and digits are word characters too, and the trailing '.' goes with
   * it. The candidate is the name.
   */
  lemma {:induction false} NeoJar(p: string, r: string, v: string)
    requires p != [] && LowerLetters(p) && NoLoaderWord(p)
    requires forall k :: 0 <= k < |r| ==> IsWordChar(r[k]) && !IsUpper(r[k])
    requires v != [] && IsDigit(v[0]) && Plain(v) && NoUpper(v)
    ensures CandidateFromFilename(p + "-neo" + r + "." + v + ".jar") == p
  {
    var tail := "-neo" + r + "." + v;
    var lowered := p + tail;
    assert p + "-neo" + r + "." + v + ".jar" == lowered + ".jar";
    NeoNameLowered(p, r, v);
    JarNameLowered(lowered);
    NeoTokenDropped(p, r, v);
    CandidateOfParts(lowered + ".jar", lowered, p, v);
  }

  /** re.sub keeps the name and drops "-neo", the run and the '.' in front of the version. */
  lemma NeoTokenDropped(p: string, r: string, v: string)
    requires LowerLetters(p) && NoLoaderWord(p)
    requires forall k :: 0 <= k < |r| ==> IsWordChar(r[k])
    requires Plain(v)
    ensures RemoveLoaderTokens(p + ("-neo" + r + "." + v)) == p + v
  {
    var tail := "-neo" + r + "." + v;
    var lowered := p + tail;
    assert lowered[..|p|] == p && lowered[|p|..] == tail;
    LettersUnmatched(p, tail);
    RemoveLoaderTokensPrefix(lowered, |p|);
    NeoTokenRemoved(r, v);
  }

  lemma NeoNameLowered(p: string, r: string, v: string)
    requires LowerLetters(p) && NoUpper(v)
    requires forall k :: 0 <= k < |r| ==> IsWordChar(r[k]) && !IsUpper(r[k])
    ensures NoUpper(p + ("-neo" + r + "." + v))
  {
    assert NoUpper(r);
    NoUpperConcat("-neo", r);
    NoUpperConcat("-neo" + r, ".");
    NoUpperConcat("-neo" + r + ".", v);
    NoUpperConcat(p, "-neo" + r + "." + v);
  }

  /** "-neo", the word run and the '.' after it form one match, and it is deleted. */
  lemma NeoTokenRemoved(r: string, v: string)
    requires forall k :: 0 <= k < |r| ==> IsWordChar(r[k])
    requires Plain(v)
    ensures RemoveLoaderTokens("-neo" + r + "." + v) == v
  {
    var tail := "-neo" + r + "." + v;
    NeoMatch(tail, r, v);
    assert tail[|r| + 5..] == v;
    RemoveLoaderTokensPlain(v);
  }

  lemma NeoMatch(tail: string, r: string, v: string)
    requires tail == "-neo" + r + "." + v
    requires forall k :: 0 <= k < |r| ==> IsWordChar(r[k])
    ensures LoaderMatch(tail) == |r| + 5
  {
    assert tail[1..4] == "neo";
    NeoRun(tail, r, v);
    assert tail[4 + |r|] == '.';
  }

  /** `\w*` after "neo" takes exactly the run `r`: the '.' after it is not a word character. */
  lemma NeoRun(tail: string, r: string, v: string)
    requires tail == "-neo" + r + "." + v
    requires forall k :: 0 <= k < |r| ==> IsWordChar(r[k])
    ensures WordRun(tail, 4) == |r|
  {
    assert tail[4 + |r|] == '.';
    assert forall k :: 4 <= k < 4 + |r| ==> tail[k] == r[k - 4];
  }

  /** "mod-neoforge_1.20.jar" gives "mod": the loader token takes "-neoforge_1." with it. */
  lemma NeoForgeFilename()
    ensures CandidateFromFilename("mod-neoforge_1.20.jar") == "mod"
  {
    var p := "mod";
    forall i | 0 <= i < |p| ensures TokenLength(p, i) == 0 {
      NoTokenAt(p, i);
    }
    assert "mod" + "-neo" + "forge_1" + "." + "20" + ".jar" == "mod-neoforge_1.20.jar";
    NeoJar(p, "forge_1", "20");
  }

  /** The worked example of the override table: the heuristic yields "voicechat". */
  lemma VoiceChatFilename()
    ensures CandidateFromFilename("voicechat-fabric-1.20.1-2.5.0.jar") == "voicechat"
  {
    var p := "voicechat";
    forall i | 0 <= i < |p| ensures TokenLength(p, i) == 0 {
      NoTokenAt(p, i);
    }
    assert "voicechat" + "-" + "fabric" + "-" + "1.20.1-2.5.0" + ".jar" == "voicechat-fabric-1.20.1-2.5.0.jar";
    LoaderJar(p, "fabric", "1.20.1-2.5.0");
  }
}
