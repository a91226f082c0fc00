/**
 * The Python string built-ins the backend relies on (`lower`, `upper`,
 * `title`, `strip`, `replace`, `split`, `join`, `in`, `startswith`,
 * `endswith`, `int` and `str` on integers). Case mapping and whitespace are
 * those of the ASCII range; every other character is left as it is.
 */
module PyStr {
  import opened Wrappers

  // ---------------------------------------------------------------------------
  // Characters
  // ---------------------------------------------------------------------------

  /** `str.isspace` on ASCII: space, \t \n \v \f \r and the separators \x1c-\x1f. */
  predicate IsSpace(c: char) {
    c == ' ' || '\t' <= c <= '\r' || '\U{1C}' <= c <= '\U{1F}'
  }

  predicate IsUpper(c: char) { 'A' <= c <= 'Z' }
  predicate IsLower(c: char) { 'a' <= c <= 'z' }
  predicate IsAlpha(c: char) { IsUpper(c) || IsLower(c) }
  predicate IsDigit(c: char) { '0' <= c <= '9' }
  predicate IsAlnum(c: char) { IsAlpha(c) || IsDigit(c) }

  function LowerChar(c: char): (d: char)
    ensures !IsUpper(d)
    ensures IsAlpha(d) == IsAlpha(c) && IsSpace(d) == IsSpace(c)
    ensures !IsUpper(c) ==> d == c
  {
    if IsUpper(c) then (c as int + 32) as char else c
  }

  function UpperChar(c: char): (d: char)
    ensures !IsLower(d)
    ensures IsAlpha(d) == IsAlpha(c)
    ensures !IsLower(c) ==> d == c
  {
    if IsLower(c) then (c as int - 32) as char else c
  }

  lemma LowerUpperChar(c: char)
    ensures IsAlpha(c) ==> LowerChar(UpperChar(c)) == LowerChar(c)
  {
  }

  // ---------------------------------------------------------------------------
  // Case mapping
  // ---------------------------------------------------------------------------

  /** `s.lower()` */
  function Lower(s: string): (r: string)
    ensures |r| == |s|
    ensures forall c | c in r :: !IsUpper(c)
  {
    seq(|s|, i requires 0 <= i < |s| => LowerChar(s[i]))
  }

  /** `s.upper()` */
  function Upper(s: string): (r: string)
    ensures |r| == |s|
    ensures forall c | c in r :: !IsLower(c)
  {
    seq(|s|, i requires 0 <= i < |s| => UpperChar(s[i]))
  }

  /** `s.title()`: a letter that follows a letter is lower-cased, every other
      character upper-cased (digits and punctuation are not cased). */
  function Title(s: string): (r: string)
    ensures |r| == |s|
  {
    seq(|s|, i requires 0 <= i < |s| =>
      if i > 0 && IsAlpha(s[i - 1]) then LowerChar(s[i]) else UpperChar(s[i]))
  }

  /** Lower-casing twice is lower-casing once. */
  lemma LowerIdempotent(s: string)
    ensures Lower(Lower(s)) == Lower(s)
  {
    assert forall i | 0 <= i < |s| :: Lower(Lower(s))[i] == Lower(s)[i];
  }

  /** Title-casing changes only the case of letters: lower-casing the result
      gives the lower-case form of the text. */
  lemma LowerTitle(s: string)
    ensures Lower(Title(s)) == Lower(s)
  {
    forall i | 0 <= i < |s|
      ensures Lower(Title(s))[i] == Lower(s)[i]
    {
      LowerUpperChar(s[i]);
    }
  }

  /** A string without upper-case letters is its own lower-case form. */
  lemma LowerOfLower(s: string)
    requires forall c | c in s :: !IsUpper(c)
    ensures Lower(s) == s
  {
    assert forall i | 0 <= i < |s| :: s[i] in s && Lower(s)[i] == s[i];
  }

  lemma LowerAppend(a: string, b: string)
    ensures Lower(a + b) == Lower(a) + Lower(b)
  {
    assert forall i | 0 <= i < |a + b| :: Lower(a + b)[i] == (Lower(a) + Lower(b))[i];
  }

  // ---------------------------------------------------------------------------
  // Whitespace stripping
  // ---------------------------------------------------------------------------

  /** `s.lstrip()`: the suffix left after dropping every leading whitespace. */
  function LStrip(s: string): (r: string)
    ensures |r| <= |s| && r == s[|s| - |r|..]
    ensures r == [] || !IsSpace(r[0])
    ensures forall i | 0 <= i < |s| - |r| :: IsSpace(s[i])
  {
    if s != [] && IsSpace(s[0]) then LStrip(s[1..]) else s
  }

  /** `s.rstrip()`: the prefix left after dropping every trailing whitespace. */
  function RStrip(s: string): (r: string)
    ensures |r| <= |s| && r == s[..|r|]
    ensures r == [] || !IsSpace(r[|r| - 1])
    ensures forall i | |r| <= i < |s| :: IsSpace(s[i])
  {
    if s != [] && IsSpace(s[|s| - 1]) then RStrip(s[..|s| - 1]) else s
  }

  /** `s.strip()` */
  function Strip(s: string): (r: string)
    ensures r == [] || (!IsSpace(r[0]) && !IsSpace(r[|r| - 1]))
    ensures |r| <= |s|
  {
    RStrip(LStrip(s))
  }

  predicate Unpadded(s: string) {
    s == [] || (!IsSpace(s[0]) && !IsSpace(s[|s| - 1]))
  }

  /** A string with no surrounding whitespace is left alone by `strip`. */
  lemma StripUnpadded(s: string)
    requires Unpadded(s)
    ensures Strip(s) == s
  {
  }

  /** `strip` only removes characters: every character left was in the text. */
  lemma StripChars(s: string)
    ensures forall c | c in Strip(s) :: c in s
  {
    var l := LStrip(s);
    var r := RStrip(l);
    assert forall c | c in r :: c in l;
    assert forall c | c in l :: c in s;
  }

  /** `strip` removes whitespace only: every other character of the text stays. */
  lemma StripKeepsNonSpace(s: string, c: char)
    requires c in s && !IsSpace(c)
    ensures c in Strip(s)
  {
    LStripKeepsNonSpace(s, c);
    RStripKeepsNonSpace(LStrip(s), c);
  }

  lemma {:induction false} LStripKeepsNonSpace(s: string, c: char)
    requires c in s && !IsSpace(c)
    ensures c in LStrip(s)
  {
    if IsSpace(s[0]) {
      assert c in s[1..] by { assert s == [s[0]] + s[1..]; }
      LStripKeepsNonSpace(s[1..], c);
    }
  }

  lemma {:induction false} RStripKeepsNonSpace(s: string, c: char)
    requires c in s && !IsSpace(c)
    ensures c in RStrip(s)
  {
    var last := |s| - 1;
    if IsSpace(s[last]) {
      assert c in s[..last] by { assert s == s[..last] + [s[last]]; }
      RStripKeepsNonSpace(s[..last], c);
    }
  }

  /** Whitespace on either side of an unpadded string is exactly what `strip`
      removes. */
  lemma {:induction false} StripPadded(pre: string, s: string, post: string)
    requires forall c | c in pre :: IsSpace(c)
    requires forall c | c in post :: IsSpace(c)
    requires Unpadded(s)
    ensures Strip(pre + s + post) == s
  {
    assert pre + s + post == pre + (s + post);
    if s == [] {
      assert forall c | c in pre + post :: IsSpace(c);
      LStripAllSpace(pre + post);
    } else {
      LStripSpaces(pre, s + post);
      RStripSpaces(s, post);
    }
  }

  lemma LStripAllSpace(s: string)
    requires forall c | c in s :: IsSpace(c)
    ensures LStrip(s) == []
  {
  }

  lemma {:induction false} LStripSpaces(pre: string, t: string)
    requires forall c | c in pre :: IsSpace(c)
    requires t == [] || !IsSpace(t[0])
    ensures LStrip(pre + t) == t
  {
    if pre != [] {
      assert (pre + t)[1..] == pre[1..] + t;
      assert pre[0] in pre;
      LStripSpaces(pre[1..], t);
    }
  }

  lemma {:induction false} RStripSpaces(t: string, post: string)
    requires forall c | c in post :: IsSpace(c)
    requires t == [] || !IsSpace(t[|t| - 1])
    ensures RStrip(t + post) == t
  {
    if post != [] {
      var p := post[..|post| - 1];
      assert (t + post)[..|t + post| - 1] == t + p;
      assert post[|post| - 1] in post;
      RStripSpaces(t, p);
    }
  }

  // ---------------------------------------------------------------------------
  // Prefixes, suffixes and substrings
  // ---------------------------------------------------------------------------

  /** `s.startswith(p)` */
  predicate StartsWith(s: string, p: string) {
    |p| <= |s| && s[..|p|] == p
  }

  /** `s.endswith(p)` */
  predicate EndsWith(s: string, p: string) {
    |p| <= |s| && s[|s| - |p|..] == p
  }

  predicate OccursAt(s: string, sub: string, i: int) {
    0 <= i && i + |sub| <= |s| && s[i..i + |sub|] == sub
  }

  /** `s.find(sub)` when it is not -1: the first position where `sub` occurs. */
  function IndexOf(s: string, sub: string): (r: Option<nat>)
    ensures r.Some? ==> OccursAt(s, sub, r.value)
    ensures r.Some? ==> forall j | 0 <= j < r.value :: !OccursAt(s, sub, j)
    ensures r.None? ==> forall j :: !OccursAt(s, sub, j)
    decreases |s|
  {
    if |s| < |sub| then None
    else if s[..|sub|] == sub then Some(0)
    else match IndexOf(s[1..], sub)
      case None =>
        assert forall j | 1 <= j :: OccursAt(s, sub, j) ==> OccursAt(s[1..], sub, j - 1);
        None
      case Some(k) =>
        assert forall j | 1 <= j :: OccursAt(s, sub, j) ==> OccursAt(s[1..], sub, j - 1);
        assert OccursAt(s, sub, k + 1) by { assert s[k + 1..k + 1 + |sub|] == s[1..][k..k + |sub|]; }
        Some(k + 1)
  }

  /** `sub in s`: a left-to-right search for `sub` succeeds. */
  predicate Contains(s: string, sub: string) {
    IndexOf(s, sub).Some?
  }

  /** A one-character string is in `s` iff that character is. */
  lemma ContainsChar(s: string, c: char)
    ensures Contains(s, [c]) <==> c in s
  {
    ContainsIff(s, [c]);
    if c in s {
      var k :| 0 <= k < |s| && s[k] == c;
      assert s[k..k + 1] == [c];
      assert OccursAt(s, [c], k);
    }
    if Contains(s, [c]) {
      var k :| 0 <= k <= |s| - 1 && OccursAt(s, [c], k);
      assert s[k] == s[k..k + 1][0];
    }
  }

  /** `sub in s` holds iff `sub` occurs at some position of `s`. */
  lemma ContainsIff(s: string, sub: string)
    ensures Contains(s, sub) <==> exists i | 0 <= i <= |s| - |sub| :: OccursAt(s, sub, i)
  {
    if Contains(s, sub) {
      assert OccursAt(s, sub, IndexOf(s, sub).value);
    }
  }

  // ---------------------------------------------------------------------------
  // replace
  // ---------------------------------------------------------------------------

  /** `s.replace(pat, rep)`: occurrences of `pat` are found left to right and
      never overlap. */
  function Replace(s: string, pat: string, rep: string): string
    requires |pat| > 0
    decreases |s|
  {
    if |s| < |pat| then s
    else if s[..|pat|] == pat then rep + Replace(s[|pat|..], pat, rep)
    else [s[0]] + Replace(s[1..], pat, rep)
  }

  /** A text missing one of the characters of `pat` is unchanged by `replace`. */
  lemma {:induction false} ReplaceAbsent(s: string, pat: string, rep: string, k: nat)
    requires k < |pat| && pat[k] !in s
    ensures Replace(s, pat, rep) == s
    decreases |s|
  {
    if |s| >= |pat| {
      assert s[..|pat|] != pat by { assert s[..|pat|][k] == s[k]; assert s[k] in s; }
      assert forall c | c in s[1..] :: c in s;
      ReplaceAbsent(s[1..], pat, rep, k);
    }
  }

  /** `pat` at the very front is the first thing `replace` rewrites. */
  lemma ReplaceLeading(pat: string, s: string, rep: string)
    requires |pat| > 0
    ensures Replace(pat + s, pat, rep) == rep + Replace(s, pat, rep)
  {
    assert (pat + s)[..|pat|] == pat;
    assert (pat + s)[|pat|..] == s;
  }

  /** When `pat` cannot start inside `s`, replacing in `s + pat` rewrites
      exactly the final copy of `pat`. */
  lemma {:induction false} ReplaceTrailing(s: string, pat: string, rep: string)
    requires |pat| > 0 && pat[0] !in s
    ensures Replace(s + pat, pat, rep) == s + rep
  {
    if s == [] {
      assert s + pat == pat + [];
      ReplaceLeading(pat, [], rep);
    } else {
      var t := s + pat;
      assert s[0] in s;
      assert t[..|pat|] != pat by { assert t[..|pat|][0] == s[0]; }
      assert t[1..] == s[1..] + pat;
      assert pat[0] !in s[1..] by { assert forall c | c in s[1..] :: c in s; }
      ReplaceTrailing(s[1..], pat, rep);
      calc {
        Replace(t, pat, rep);
        [s[0]] + Replace(s[1..] + pat, pat, rep);
        [s[0]] + (s[1..] + rep);
        { assert [s[0]] + s[1..] == s; }
        s + rep;
      }
    }
  }

  /** Every character of the result comes from the text or from `rep`. */
  lemma {:induction false} ReplaceChars(s: string, pat: string, rep: string)
    requires |pat| > 0
    ensures forall c | c in Replace(s, pat, rep) :: c in s || c in rep
    decreases |s|
  {
    if |s| >= |pat| {
      if s[..|pat|] == pat {
        ReplaceChars(s[|pat|..], pat, rep);
        assert forall c | c in s[|pat|..] :: c in s;
      } else {
        ReplaceChars(s[1..], pat, rep);
        assert forall c | c in s[1..] :: c in s;
      }
    }
  }

  /** Replacing one character by another rewrites the text position by
      position. */
  lemma {:induction false} ReplaceCharwise(s: string, a: char, b: char)
    ensures Replace(s, [a], [b]) == seq(|s|, i requires 0 <= i < |s| => if s[i] == a then b else s[i])
    decreases |s|
  {
    if |s| >= 1 {
      ReplaceCharwise(s[1..], a, b);
      if s[..1] == [a] {
        assert s[0] == a by { assert s[..1][0] == s[0]; }
      } else {
        assert s[0] != a by { assert s[..1] == [s[0]]; }
      }
    }
  }

  /** Replacing a single character by text without it removes that character. */
  lemma {:induction false} ReplaceEliminates(s: string, pat: string, rep: string)
    requires |pat| == 1 && pat[0] !in rep
    ensures pat[0] !in Replace(s, pat, rep)
    decreases |s|
  {
    if |s| >= 1 {
      if s[..1] == pat {
        ReplaceEliminates(s[1..], pat, rep);
      } else {
        assert s[0] != pat[0] by { assert s[..1][0] == s[0]; }
        ReplaceEliminates(s[1..], pat, rep);
      }
    }
  }

  // ---------------------------------------------------------------------------
  // split and join
  // ---------------------------------------------------------------------------

  /** Length of the run of non-whitespace characters at the front of `s`. */
  function WordLength(s: string): (n: nat)
    ensures n <= |s|
    ensures forall i | 0 <= i < n :: !IsSpace(s[i])
    ensures n == |s| || IsSpace(s[n])
  {
    if s == [] || IsSpace(s[0]) then 0 else 1 + WordLength(s[1..])
  }

  /** `s.split()`: the maximal runs of non-whitespace characters, in order. */
  function Words(s: string): (ws: seq<string>)
    ensures forall w | w in ws :: w != [] && forall c | c in w :: !IsSpace(c) && c in s
    decreases |s|
  {
    if s == [] then []
    else if IsSpace(s[0]) then
      var rest := Words(s[1..]);
      assert forall c | c in s[1..] :: c in s;
      rest
    else
      var n := WordLength(s);
      var rest := Words(s[n..]);
      assert forall c | c in s[n..] :: c in s;
      assert forall c | c in s[..n] :: c in s && !IsSpace(c);
      [s[..n]] + rest
  }

  /** The characters of `s` that are not whitespace, in order. */
  function NonSpace(s: string): (r: string)
    ensures |r| <= |s|
  {
    if s == [] then []
    else (if IsSpace(s[0]) then [] else [s[0]]) + NonSpace(s[1..])
  }

  function Concat(ss: seq<string>): string {
    if ss == [] then [] else ss[0] + Concat(ss[1..])
  }

  lemma {:induction false} NonSpaceAppend(a: string, b: string)
    ensures NonSpace(a + b) == NonSpace(a) + NonSpace(b)
  {
    if a != [] {
      assert (a + b)[1..] == a[1..] + b;
      NonSpaceAppend(a[1..], b);
    } else {
      assert a + b == b;
    }
  }

  lemma {:induction false} NonSpaceOfWord(w: string)
    requires forall i | 0 <= i < |w| :: !IsSpace(w[i])
    ensures NonSpace(w) == w
  {
    if w != [] {
      NonSpaceOfWord(w[1..]);
    }
  }

  /** Splitting on whitespace loses only the whitespace: the words, put back
      together, are the text with its whitespace removed. */
  lemma {:induction false} WordsCoverText(s: string)
    ensures Concat(Words(s)) == NonSpace(s)
    decreases |s|
  {
    if s != [] {
      if IsSpace(s[0]) {
        WordsCoverText(s[1..]);
      } else {
        var n := WordLength(s);
        WordsCoverText(s[n..]);
        assert s == s[..n] + s[n..];
        NonSpaceAppend(s[..n], s[n..]);
        NonSpaceOfWord(s[..n]);
        assert Words(s) == [s[..n]] + Words(s[n..]);
        assert ([s[..n]] + Words(s[n..]))[1..] == Words(s[n..]);
      }
    }
  }

  /** `s.split(sep)` for a non-empty separator. */
  function SplitOn(s: string, sep: string): (parts: seq<string>)
    requires |sep| > 0
    ensures |parts| >= 1
    decreases |s|
  {
    match IndexOf(s, sep)
    case None => [s]
    case Some(i) => [s[..i]] + SplitOn(s[i + |sep|..], sep)
  }

  /** `sep.join(parts)` */
  function JoinWith(sep: string, parts: seq<string>): string {
    if parts == [] then []
    else if |parts| == 1 then parts[0]
    else parts[0] + sep + JoinWith(sep, parts[1..])
  }

  /** Splitting on a separator and joining with it gives the text back. */
  lemma {:induction false} JoinSplitOn(s: string, sep: string)
    requires |sep| > 0
    ensures JoinWith(sep, SplitOn(s, sep)) == s
    decreases |s|
  {
    match IndexOf(s, sep)
    case None =>
    case Some(i) =>
      var rest := SplitOn(s[i + |sep|..], sep);
      JoinSplitOn(s[i + |sep|..], sep);
      assert SplitOn(s, sep) == [s[..i]] + rest;
      assert ([s[..i]] + rest)[1..] == rest;
      assert s[i..i + |sep|] == sep;
      assert s == s[..i] + sep + s[i + |sep|..];
  }

  /** No piece of a split contains the separator. */
  lemma {:induction false} SplitOnPiecesFree(s: string, sep: string)
    requires |sep| > 0
    ensures forall p | p in SplitOn(s, sep) :: !Contains(p, sep)
    decreases |s|
  {
    match IndexOf(s, sep)
    case None =>
    case Some(i) =>
      SplitOnPiecesFree(s[i + |sep|..], sep);
      forall j | 0 <= j
        ensures !OccursAt(s[..i], sep, j)
      {
        if j <= i - |sep| {
          assert !OccursAt(s, sep, j);
          assert s[..i][j..j + |sep|] == s[j..j + |sep|];
        }
      }
  }

  /** Where the pattern never occurs, `replace` leaves the text alone. */
  lemma {:induction false} ReplaceNowhere(s: string, pat: string, rep: string)
    requires |pat| > 0
    requires forall j :: !OccursAt(s, pat, j)
    ensures Replace(s, pat, rep) == s
    decreases |s|
  {
    if |s| >= |pat| {
      assert !OccursAt(s, pat, 0);
      forall j
        ensures !OccursAt(s[1..], pat, j)
      {
        if 0 <= j && j + |pat| <= |s| - 1 {
          assert !OccursAt(s, pat, j + 1);
          assert s[1..][j..j + |pat|] == s[j + 1..j + 1 + |pat|];
        }
      }
      ReplaceNowhere(s[1..], pat, rep);
      assert s == [s[0]] + s[1..];
    }
  }

  /** `replace` copies the text up to the first occurrence of the pattern,
      puts the replacement there and carries on after the occurrence. */
  lemma ReplaceAtFirst(s: string, pat: string, rep: string, i: nat)
    requires |pat| > 0 && OccursAt(s, pat, i)
    requires forall j | 0 <= j < i :: !OccursAt(s, pat, j)
    ensures Replace(s, pat, rep) == s[..i] + rep + Replace(s[i + |pat|..], pat, rep)
  {
    var a, rest := s[..i], s[i + |pat|..];
    SplitAround(s, pat, i);
    ReplaceUnmatchedPrefix(a, pat + rest, pat, rep);
    ReplaceLeading(pat, rest, rep);
    AppendAssoc(a, rep, Replace(rest, pat, rep));
  }

  lemma SplitAround(s: string, pat: string, i: nat)
    requires OccursAt(s, pat, i)
    ensures s == s[..i] + (pat + s[i + |pat|..])
  {
    assert s[i..] == s[i..i + |pat|] + s[i + |pat|..];
    assert s == s[..i] + s[i..];
  }

  lemma AppendAssoc(a: string, b: string, c: string)
    ensures a + (b + c) == a + b + c
  {
  }

  /** A prefix in which no occurrence of the pattern starts is copied as it is. */
  lemma {:induction false} ReplaceUnmatchedPrefix(a: string, b: string, pat: string, rep: string)
    requires |pat| > 0
    requires forall j | 0 <= j < |a| :: !OccursAt(a + b, pat, j)
    ensures Replace(a + b, pat, rep) == a + Replace(b, pat, rep)
    decreases |a|
  {
    if a != [] {
      var a' := a[1..];
      UnmatchedHead(a, b, pat, rep);
      ReplaceUnmatchedPrefix(a', b, pat, rep);
      if |a + b| >= |pat| {
        assert a == [a[0]] + a';
        AppendAssoc([a[0]], a', Replace(b, pat, rep));
      } else {
        assert Replace(a' + b, pat, rep) == a' + b;
        assert Replace(b, pat, rep) == b;
      }
    } else {
      assert a + b == b;
    }
  }

  /** With no occurrence at the front, `replace` copies the first character,
      and the rest of the prefix is still free of occurrences. */
  lemma UnmatchedHead(a: string, b: string, pat: string, rep: string)
    requires |pat| > 0 && a != []
    requires forall j | 0 <= j < |a| :: !OccursAt(a + b, pat, j)
    ensures forall j | 0 <= j < |a| - 1 :: !OccursAt(a[1..] + b, pat, j)
    ensures |a + b| >= |pat| ==> Replace(a + b, pat, rep) == [a[0]] + Replace(a[1..] + b, pat, rep)
  {
    var s := a + b;
    assert s[1..] == a[1..] + b;
    forall j | 0 <= j < |a| - 1 && j + |pat| <= |s| - 1
      ensures !OccursAt(a[1..] + b, pat, j)
    {
      assert !OccursAt(s, pat, j + 1);
      assert s[1..][j..j + |pat|] == s[j + 1..j + 1 + |pat|];
    }
    if |s| >= |pat| {
      assert !OccursAt(s, pat, 0);
    }
  }

  /** `s.replace(pat, rep)` is `rep.join(s.split(pat))`: every occurrence of
      the pattern, and nothing else, gives way to the replacement. */
  lemma {:induction false} ReplaceIsJoinSplit(s: string, pat: string, rep: string)
    requires |pat| > 0
    ensures Replace(s, pat, rep) == JoinWith(rep, SplitOn(s, pat))
    decreases |s|
  {
    match IndexOf(s, pat)
    case None =>
      ReplaceNowhere(s, pat, rep);
    case Some(i) =>
      var rest := SplitOn(s[i + |pat|..], pat);
      ReplaceAtFirst(s, pat, rep, i);
      ReplaceIsJoinSplit(s[i + |pat|..], pat, rep);
      assert SplitOn(s, pat) == [s[..i]] + rest;
      assert ([s[..i]] + rest)[1..] == rest;
  }

  // ---------------------------------------------------------------------------
  // Integers: str(n) and int(s)
  // ---------------------------------------------------------------------------

  function DigitChar(d: nat): (c: char)
    requires d < 10
    ensures IsDigit(c)
  {
    ('0' as int + d) as char
  }

  function DigitValue(c: char): (d: nat)
    requires IsDigit(c)
    ensures d < 10 && DigitChar(d) == c
  {
    c as int - '0' as int
  }

  predicate AllDigits(s: string) {
    forall i | 0 <= i < |s| :: IsDigit(s[i])
  }

  /** `str(n)` for n >= 0: decimal digits with no leading zero. */
  function NatToString(n: nat): (r: string)
    ensures |r| > 0 && AllDigits(r)
    ensures r[0] == '0' ==> n == 0 && r == "0"
  {
    if n < 10 then [DigitChar(n)] else NatToString(n / 10) + [DigitChar(n % 10)]
  }

  /** `str(n)` */
  function IntToString(n: int): (r: string)
    ensures |r| > 0
  {
    if n < 0 then "-" + NatToString(-n) else NatToString(n)
  }

  /** The value of a run of digits in which `_` may separate digits. */
  function DecimalValue(s: string): nat
    requires forall i | 0 <= i < |s| :: IsDigit(s[i]) || s[i] == '_'
  {
    if s == [] then 0
    else if s[|s| - 1] == '_' then DecimalValue(s[..|s| - 1])
    else 10 * DecimalValue(s[..|s| - 1]) + DigitValue(s[|s| - 1])
  }

  /** Python 3's integer-literal body: digits, optionally grouped by single
      underscores that stand between two digits. */
  predicate IsDecimalLiteral(s: string) {
    && |s| > 0
    && forall i | 0 <= i < |s| ::
         IsDigit(s[i]) || (s[i] == '_' && 0 < i < |s| - 1 && IsDigit(s[i - 1]) && IsDigit(s[i + 1]))
  }

  /** `int(s)` on a string already stripped of whitespace: an optional sign
      followed by a decimal literal; anything else is a `ValueError` (None). */
  function ParseInt(s: string): (r: Option<int>)
    ensures r.Some? ==> (IsDecimalLiteral(s) || (|s| > 1 && (s[0] == '+' || s[0] == '-') && IsDecimalLiteral(s[1..])))
  {
    if |s| > 0 && (s[0] == '+' || s[0] == '-') then
      var body := s[1..];
      if IsDecimalLiteral(body) then
        Some(if s[0] == '-' then -(DecimalValue(body) as int) else DecimalValue(body))
      else None
    else if IsDecimalLiteral(s) then Some(DecimalValue(s))
    else None
  }

  lemma {:induction false} DecimalValueOfNat(n: nat)
    ensures AllDigits(NatToString(n)) && DecimalValue(NatToString(n)) == n
  {
    var r := NatToString(n);
    if n >= 10 {
      DecimalValueOfNat(n / 10);
      assert r[..|r| - 1] == NatToString(n / 10);
    }
  }

  /** `int(str(n)) == n`: the decimal form of an integer parses back to it. */
  lemma IntToStringRoundTrip(n: int)
    ensures ParseInt(IntToString(n)) == Some(n)
  {
    var m: nat := if n < 0 then -n else n;
    var d := NatToString(m);
    DecimalValueOfNat(m);
    assert IsDecimalLiteral(d);
    if n < 0 {
      var s := IntToString(n);
      assert s == "-" + d;
      assert s[0] == '-' && s[1..] == d;
    } else {
      assert IntToString(n) == d;
      assert d[0] != '+' && d[0] != '-';
    }
  }

  /** Digits hold no character other than digits. */
  lemma DigitsLack(d: string, c: char)
    requires AllDigits(d) && !IsDigit(c)
    ensures c !in d
  {
  }

  // ---------------------------------------------------------------------------
  // List comprehensions with a condition
  // ---------------------------------------------------------------------------

  /** `a` is `b` with some elements left out and the rest kept in order. */
  predicate IsSubsequence<T(==)>(a: seq<T>, b: seq<T>)
    decreases |b|
  {
    a == [] || (b != [] && (
      (a[|a| - 1] == b[|b| - 1] && IsSubsequence(a[..|a| - 1], b[..|b| - 1]))
      || IsSubsequence(a, b[..|b| - 1])))
  }

  /** `[x for x in xs if keep(x)]` */
  function Filter<T>(xs: seq<T>, keep: T -> bool): (r: seq<T>)
    ensures |r| <= |xs|
    ensures forall x | x in r :: x in xs && keep(x)
  {
    if xs == [] then []
    else
      var init := xs[..|xs| - 1];
      var r0 := Filter(init, keep);
      assert xs == init + [xs[|xs| - 1]];
      r0 + (if keep(xs[|xs| - 1]) then [xs[|xs| - 1]] else [])
  }

  /** A filter that keeps every element is the identity. */
  lemma {:induction false} FilterAll<T>(xs: seq<T>, keep: T -> bool)
    requires forall x | x in xs :: keep(x)
    ensures Filter(xs, keep) == xs
  {
    if xs != [] {
      var init := xs[..|xs| - 1];
      assert forall x | x in init :: x in xs;
      FilterAll(init, keep);
      assert xs[|xs| - 1] in xs;
      assert xs == init + [xs[|xs| - 1]];
    }
  }

  lemma FilterSnoc<T>(xs: seq<T>, x: T, keep: T -> bool)
    ensures Filter(xs + [x], keep) == Filter(xs, keep) + (if keep(x) then [x] else [])
  {
    assert (xs + [x])[..|xs|] == xs;
  }

  /** Every kept element is kept as often as it occurs. */
  lemma {:induction false} FilterCount<T>(xs: seq<T>, keep: T -> bool, x: T)
    requires keep(x)
    ensures multiset(Filter(xs, keep))[x] == multiset(xs)[x]
  {
    if xs != [] {
      var init := xs[..|xs| - 1];
      FilterCount(init, keep, x);
      assert xs == init + [xs[|xs| - 1]];
    }
  }

  /** An element is in the result iff it is in the input and is kept. */
  lemma FilterMember<T>(xs: seq<T>, keep: T -> bool, x: T)
    ensures x in Filter(xs, keep) <==> x in xs && keep(x)
  {
    if x in xs && keep(x) {
      FilterCount(xs, keep, x);
      assert multiset(xs)[x] > 0;
    }
  }

  /** The kept elements stay in their original order. */
  lemma {:induction false} FilterInOrder<T>(xs: seq<T>, keep: T -> bool)
    ensures IsSubsequence(Filter(xs, keep), xs)
  {
    if xs != [] {
      var init := xs[..|xs| - 1];
      var r0 := Filter(init, keep);
      FilterInOrder(init, keep);
      if keep(xs[|xs| - 1]) {
        var r := r0 + [xs[|xs| - 1]];
        assert r[..|r| - 1] == r0;
      } else {
        assert Filter(xs, keep) == r0;
        assert xs[..|xs| - 1] == init;
      }
    }
  }
}
