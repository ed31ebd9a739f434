/**
 * The few Python `str` operations the man-page builder relies on, over `seq<char>`:
 * `find`, `split(sep)`, `split(sep, 1)`, `sep.join(parts)`, `replace` and `strip()`.
 * Each is defined recursively the way CPython scans (left to right, leftmost
 * non-overlapping matches), and the lemmas tie them to one another.
 */
module PyStr {
  import opened Wrappers

  /** Python's `str.isspace()` for one character: the characters `strip()` removes. */
  predicate IsSpace(c: char) {
    c == ' ' || ('\t' <= c <= '\r') || ('\U{1c}' <= c <= '\U{1f}')
    || c == '\U{85}' || c == '\U{a0}' || c == '\U{1680}' || ('\U{2000}' <= c <= '\U{200a}')
    || c == '\U{2028}' || c == '\U{2029}' || c == '\U{202f}' || c == '\U{205f}' || c == '\U{3000}'
  }

  predicate AllSpace(s: string) {
    forall i :: 0 <= i < |s| ==> IsSpace(s[i])
  }

  /** `p` occurs in `s` starting at index `i`. */
  predicate OccursAt(s: string, i: nat, p: string) {
    i + |p| <= |s| && s[i..i + |p|] == p
  }

  ghost predicate NoOccurrence(s: string, p: string) {
    forall j: nat {:trigger OccursAt(s, j, p)} :: !OccursAt(s, j, p)
  }

  lemma OccursAtTail(s: string, j: nat, p: string)
    requires |s| > 0
    ensures OccursAt(s[1..], j, p) <==> OccursAt(s, j + 1, p)
  {
    if j + 1 + |p| <= |s| {
      assert s[1..][j..j + |p|] == s[j + 1..j + 1 + |p|];
    }
  }

  lemma OccursAtPrefix(s: string, k: nat, j: nat, p: string)
    requires k <= |s|
    ensures OccursAt(s[..k], j, p) <==> (OccursAt(s, j, p) && j + |p| <= k)
  {
    if j + |p| <= k {
      assert s[..k][j..j + |p|] == s[j..j + |p|];
    }
  }

  /** `s.find(p)`: the index of the leftmost occurrence of `p`, or None for Python's -1. */
  function Find(s: string, p: string): (r: Option<nat>)
    requires |p| > 0
    ensures r.Some? ==> r.value + |p| <= |s|
    decreases |s|
  {
    if |s| < |p| then None
    else if OccursAt(s, 0, p) then Some(0)
    else
      match Find(s[1..], p)
      case None => None
      case Some(i) => Some(i + 1)
  }

  /** `find` returns the leftmost occurrence, and None exactly when there is none. */
  lemma {:induction false} FindSpec(s: string, p: string)
    requires |p| > 0
    ensures Find(s, p).Some? ==> OccursAt(s, Find(s, p).value, p)
    ensures Find(s, p).Some? ==> forall j: nat :: j < Find(s, p).value ==> !OccursAt(s, j, p)
    ensures Find(s, p).None? ==> NoOccurrence(s, p)
    decreases |s|
  {
    if |s| >= |p| && !OccursAt(s, 0, p) {
      FindSpec(s[1..], p);
      forall j: nat | 1 <= j ensures OccursAt(s, j, p) <==> OccursAt(s[1..], j - 1, p) {
        OccursAtTail(s, j - 1, p);
      }
    }
  }

  /** Whatever is the leftmost occurrence is what `Find` returns. */
  lemma FindLeftmost(s: string, p: string, k: nat)
    requires |p| > 0
    requires OccursAt(s, k, p)
    requires forall j: nat :: j < k ==> !OccursAt(s, j, p)
    ensures Find(s, p) == Some(k)
  {
    FindSpec(s, p);
  }

  /** With no occurrence at all, `Find` returns None. */
  lemma FindNone(s: string, p: string)
    requires |p| > 0
    requires NoOccurrence(s, p)
    ensures Find(s, p) == None
  {
    FindSpec(s, p);
  }

  /** `s.split(sep)` for a non-empty separator. */
  function Split(s: string, sep: string): (r: seq<string>)
    requires |sep| > 0
    ensures |r| >= 1
    decreases |s|
  {
    match Find(s, sep)
    case None => [s]
    case Some(i) => [s[..i]] + Split(s[i + |sep|..], sep)
  }

  /** No piece `split` returns contains the separator. */
  lemma {:induction false} SplitPieces(s: string, sep: string)
    requires |sep| > 0
    ensures forall i :: 0 <= i < |Split(s, sep)| ==> NoOccurrence(Split(s, sep)[i], sep)
    decreases |s|
  {
    FindSpec(s, sep);
    match Find(s, sep)
    case None =>
    case Some(i) =>
      forall j: nat ensures !OccursAt(s[..i], j, sep) {
        OccursAtPrefix(s, i, j, sep);
      }
      SplitPieces(s[i + |sep|..], sep);
  }

  /** `sep.join(parts)`. */
  function Join(sep: string, parts: seq<string>): string
  {
    if |parts| == 0 then []
    else if |parts| == 1 then parts[0]
    else parts[0] + sep + Join(sep, parts[1..])
  }

  /** Python's `''.join(parts)`. */
  function Concat(parts: seq<string>): string
  {
    if |parts| == 0 then [] else parts[0] + Concat(parts[1..])
  }

  /** `s.replace(pat, sub)` for a non-empty pattern: leftmost non-overlapping matches, scanned once. */
  function Replace(s: string, pat: string, sub: string): string
    requires |pat| > 0
    decreases |s|
  {
    if |s| == 0 then []
    else if OccursAt(s, 0, pat) then sub + Replace(s[|pat|..], pat, sub)
    else [s[0]] + Replace(s[1..], pat, sub)
  }

  /** `s.split(sep, 1)`: the text before the first `sep` and the rest, or `[s]` when there is none. */
  function SplitOnce(s: string, sep: string): (r: seq<string>)
    requires |sep| > 0
    ensures 1 <= |r| <= 2
  {
    match Find(s, sep)
    case None => [s]
    case Some(i) => [s[..i], s[i + |sep|..]]
  }

  /**
   * `split(sep, 1)` keeps the whole string when it has no separator, and
   * otherwise cuts it in two around its first separator.
   */
  lemma SplitOnceParts(s: string, sep: string)
    requires |sep| > 0
    ensures |SplitOnce(s, sep)| == 1 <==> NoOccurrence(s, sep)
    ensures |SplitOnce(s, sep)| == 1 ==> SplitOnce(s, sep)[0] == s
    ensures |SplitOnce(s, sep)| == 2 ==> SplitOnce(s, sep)[0] + sep + SplitOnce(s, sep)[1] == s
    ensures |SplitOnce(s, sep)| == 2 ==>
              forall j: nat :: j <= |SplitOnce(s, sep)[0]| ==> (OccursAt(s, j, sep) <==> j == |SplitOnce(s, sep)[0]|)
  {
    FindSpec(s, sep);
    match Find(s, sep)
    case None =>
    case Some(i) =>
      assert s[i..i + |sep|] == sep;
      assert s == s[..i] + s[i..i + |sep|] + s[i + |sep|..];
  }

  /** `s.lstrip()`. */
  function LStrip(s: string): string
    decreases |s|
  {
    if s != [] && IsSpace(s[0]) then LStrip(s[1..]) else s
  }

  /** What `lstrip()` returns is a suffix of its input, only whitespace was cut, and it does not start with whitespace. */
  lemma {:induction false} LStripSpec(s: string)
    ensures |LStrip(s)| <= |s| && LStrip(s) == s[|s| - |LStrip(s)|..]
    ensures AllSpace(s[..|s| - |LStrip(s)|])
    ensures LStrip(s) != [] ==> !IsSpace(LStrip(s)[0])
    decreases |s|
  {
    if s != [] && IsSpace(s[0]) {
      LStripSpec(s[1..]);
      var r := LStrip(s[1..]);
      assert s[..|s| - |r|] == [s[0]] + s[1..][..|s| - 1 - |r|];
    }
  }

  /** `s.rstrip()`. */
  function RStrip(s: string): string
    decreases |s|
  {
    if s != [] && IsSpace(s[|s| - 1]) then RStrip(s[..|s| - 1]) else s
  }

  /** What `rstrip()` returns is a prefix of its input, only whitespace was cut, and it does not end with whitespace. */
  lemma {:induction false} RStripSpec(s: string)
    ensures |RStrip(s)| <= |s| && RStrip(s) == s[..|RStrip(s)|]
    ensures AllSpace(s[|RStrip(s)|..])
    ensures RStrip(s) != [] ==> !IsSpace(RStrip(s)[|RStrip(s)| - 1])
    decreases |s|
  {
    if s != [] && IsSpace(s[|s| - 1]) {
      RStripSpec(s[..|s| - 1]);
      var r := RStrip(s[..|s| - 1]);
      assert s[|r|..] == s[..|s| - 1][|r|..] + [s[|s| - 1]];
    }
  }

  /** `r` is `s` with some whitespace cut from each end. */
  ghost predicate Trims(s: string, r: string) {
    exists lead: nat :: lead + |r| <= |s| && s[lead..lead + |r|] == r
                        && AllSpace(s[..lead]) && AllSpace(s[lead + |r|..])
  }

  /** `s.strip()`: the slice of `s` left once all leading and all trailing whitespace is cut. */
  function Strip(s: string): string
  {
    RStrip(LStrip(s))
  }

  /** Leading whitespace in front of text that does not start with whitespace is exactly what `lstrip()` cuts. */
  lemma {:induction false} LStripLeading(lead: string, t: string)
    requires AllSpace(lead) && (t == [] || !IsSpace(t[0]))
    ensures LStrip(lead + t) == t
    decreases |lead|
  {
    if lead == [] {
      assert lead + t == t;
    } else {
      assert (lead + t)[1..] == lead[1..] + t;
      LStripLeading(lead[1..], t);
    }
  }

  /** Trailing whitespace after text that does not end with whitespace is exactly what `rstrip()` cuts. */
  lemma {:induction false} RStripTrailing(t: string, trail: string)
    requires AllSpace(trail) && (t == [] || !IsSpace(t[|t| - 1]))
    ensures RStrip(t + trail) == t
    decreases |trail|
  {
    if trail == [] {
      assert t + trail == t;
    } else {
      var shorter := trail[..|trail| - 1];
      assert (t + trail)[..|t + trail| - 1] == t + shorter;
      RStripTrailing(t, shorter);
    }
  }

  /** The converse of `StripTrims`: text with no whitespace at either end, padded by whitespace, strips back to itself. */
  lemma StripSurrounded(lead: string, body: string, trail: string)
    requires AllSpace(lead) && AllSpace(trail)
    requires body != [] && !IsSpace(body[0]) && !IsSpace(body[|body| - 1])
    ensures Strip(lead + body + trail) == body
  {
    assert lead + body + trail == lead + (body + trail);
    LStripLeading(lead, body + trail);
    RStripTrailing(body, trail);
  }

  /** What `strip()` returns is a slice of its input with only whitespace cut away, and no more whitespace at either end. */
  lemma StripTrims(s: string)
    ensures Trims(s, Strip(s))
    ensures Strip(s) != [] ==> !IsSpace(Strip(s)[0]) && !IsSpace(Strip(s)[|Strip(s)| - 1])
  {
    var l := LStrip(s);
    var r := RStrip(l);
    LStripSpec(s);
    RStripSpec(l);
    var lead := |s| - |l|;
    assert l == s[lead..];
    assert r == l[..|r|];
    assert s[lead..lead + |r|] == r;
    assert AllSpace(s[..lead]);
    assert s[lead + |r|..] == l[|r|..];
    assert AllSpace(s[lead + |r|..]);
    assert r != [] ==> r[0] == l[0];
  }

  /** `strip()` only removes characters: one absent from the input is absent from the result. */
  lemma StripKeepsOut(s: string, c: char)
    requires c !in s
    ensures c !in Strip(s)
  {
    var r := Strip(s);
    StripTrims(s);
    var lead: nat :| lead + |r| <= |s| && s[lead..lead + |r|] == r
                     && AllSpace(s[..lead]) && AllSpace(s[lead + |r|..]);
  }

  /** Joining what `split` cut gives back the string. */
  lemma {:induction false} JoinSplit(s: string, sep: string)
    requires |sep| > 0
    ensures Join(sep, Split(s, sep)) == s
    decreases |s|
  {
    FindSpec(s, sep);
    match Find(s, sep)
    case None =>
    case Some(i) =>
      var rest := s[i + |sep|..];
      JoinSplit(rest, sep);
      assert Split(s, sep) == [s[..i]] + Split(rest, sep);
      assert s == s[..i] + s[i..i + |sep|] + rest;
  }

  /** A part that no separator can start inside, even one running on into the next separator. */
  ghost predicate Separable(part: string, sep: string)
    requires |sep| > 0
  {
    NoOccurrence(part + sep[..|sep| - 1], sep)
  }

  /** Splitting what `join` glued gives back the parts, when no part can hide a separator. */
  lemma {:induction false} SplitJoin(parts: seq<string>, sep: string)
    requires |sep| > 0 && |parts| >= 1
    requires forall i :: 0 <= i < |parts| ==> Separable(parts[i], sep)
    ensures Split(Join(sep, parts), sep) == parts
    decreases |parts|
  {
    var p := parts[0];
    if |parts| == 1 {
      forall j: nat ensures !OccursAt(p, j, sep) {
        OccursAtPrefix(p + sep[..|sep| - 1], |p|, j, sep);
        assert (p + sep[..|sep| - 1])[..|p|] == p;
      }
      FindNone(p, sep);
    } else {
      var tail := Join(sep, parts[1..]);
      var s := p + sep + tail;
      assert Join(sep, parts) == s;
      var q := p + sep[..|sep| - 1];
      forall j: nat | j < |p| ensures !OccursAt(s, j, sep) {
        assert s[..|q|] == q;
        OccursAtPrefix(s, |q|, j, sep);
      }
      assert s[|p|..|p| + |sep|] == sep;
      FindLeftmost(s, sep, |p|);
      assert s[..|p|] == p;
      assert s[|p| + |sep|..] == tail;
      SplitJoin(parts[1..], sep);
    }
  }

  /** Every piece `split` returns is also free of the separator character. */
  lemma NoCharInPiece(piece: string, c: char)
    requires NoOccurrence(piece, [c])
    ensures c !in piece
  {
    if c in piece {
      var k :| 0 <= k < |piece| && piece[k] == c;
      assert piece[k..k + 1] == [c];
      assert OccursAt(piece, k, [c]);
    }
  }

  lemma {:induction false} NoCharInJoin(sep: string, parts: seq<string>, c: char)
    requires c !in sep
    requires forall i :: 0 <= i < |parts| ==> c !in parts[i]
    ensures c !in Join(sep, parts)
    decreases |parts|
  {
    if |parts| > 1 {
      NoCharInJoin(sep, parts[1..], c);
    }
  }

  /**
   * Until the first match, `replace` copies the input unchanged.
   */
  lemma {:induction false} ReplaceSkip(s: string, pat: string, sub: string, k: nat)
    requires |pat| > 0 && k <= |s|
    requires forall j: nat :: j < k ==> !OccursAt(s, j, pat)
    ensures Replace(s, pat, sub) == s[..k] + Replace(s[k..], pat, sub)
    decreases k
  {
    if k > 0 {
      assert !OccursAt(s, 0, pat);
      forall j: nat | j < k - 1 ensures !OccursAt(s[1..], j, pat) {
        OccursAtTail(s, j, pat);
      }
      ReplaceSkip(s[1..], pat, sub, k - 1);
      assert s[1..][..k - 1] == s[1..k];
      assert s[1..][k - 1..] == s[k..];
      assert s[..k] == [s[0]] + s[1..k];
    }
  }

  /** Python's identity `s.replace(pat, sub) == sub.join(s.split(pat))`. */
  lemma {:induction false} ReplaceIsJoinSplit(s: string, pat: string, sub: string)
    requires |pat| > 0
    ensures Replace(s, pat, sub) == Join(sub, Split(s, pat))
    decreases |s|
  {
    FindSpec(s, pat);
    match Find(s, pat)
    case None =>
      ReplaceSkip(s, pat, sub, |s|);
      assert s[..|s|] == s;
      assert s[|s|..] == [];
    case Some(i) =>
      ReplaceSkip(s, pat, sub, i);
      var rest := s[i + |pat|..];
      assert s[i..] != [] && OccursAt(s[i..], 0, pat) by {
        assert s[i..][0..|pat|] == s[i..i + |pat|];
      }
      assert s[i..][|pat|..] == rest;
      ReplaceIsJoinSplit(rest, pat, sub);
      assert Split(s, pat) == [s[..i]] + Split(rest, pat);
  }

  /** Stripping twice is stripping once. */
  lemma StripIdempotent(s: string)
    ensures Strip(Strip(s)) == Strip(s)
  {
    var r := Strip(s);
    StripTrims(s);
    var l := LStrip(r);
    assert r != [] ==> l == r;
    assert l != [] ==> RStrip(l) == l;
  }
}
