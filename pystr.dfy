/** The Python string operations stack_landsat.py relies on: `sub in s`, `str.replace`,
    `str.split()` with no separator and `posixpath.basename`. `Join` (`" ".join`) is not
    called by the script: it is a helper that states what `split()` inverts. */
module PyStr {
  import opened Seqs

  /** `sub` occurs in `s` starting at index `i`. */
  predicate OccursAt(sub: string, s: string, i: int)
  {
    0 <= i && i + |sub| <= |s| && s[i..i + |sub|] == sub
  }

  /** `sub in s` for strings. */
  function Contains(sub: string, s: string): bool
    decreases |s|
  {
    sub <= s || (s != [] && Contains(sub, s[1..]))
  }

  /** `sub in s` holds exactly when `sub` occurs at some index of `s`. */
  lemma {:induction false} ContainsOccurs(sub: string, s: string)
    ensures Contains(sub, s) <==> exists i :: OccursAt(sub, s, i)
    decreases |s|
  {
    if sub <= s {
      assert OccursAt(sub, s, 0);
    } else if s != [] {
      ContainsOccurs(sub, s[1..]);
      if Contains(sub, s[1..]) {
        var i :| OccursAt(sub, s[1..], i);
        OccursShift(sub, s, i);
      }
      OccursAtStart(sub, s);
      if exists i :: OccursAt(sub, s, i) {
        var i :| OccursAt(sub, s, i);
        if i > 0 {
          OccursShift(sub, s, i - 1);
        }
      }
    }
  }

  /** An occurrence at index 0 is a prefix. */
  lemma OccursAtStart(sub: string, s: string)
    ensures OccursAt(sub, s, 0) <==> sub <= s
  {
    if OccursAt(sub, s, 0) {
      assert s[..|sub|] == sub;
    }
  }

  /** An occurrence in `s[1..]` is an occurrence in `s` one place later. */
  lemma OccursShift(sub: string, s: string, i: nat)
    requires s != []
    ensures OccursAt(sub, s[1..], i) <==> OccursAt(sub, s, i + 1)
  {
    if i + |sub| <= |s[1..]| {
      assert s[1..][i..i + |sub|] == s[i + 1..i + 1 + |sub|];
    }
  }

  /** `s.replace(target, repl)`: scanning from the left, every occurrence of `target` that
      does not overlap an earlier replaced one becomes `repl`; an empty `target` puts
      `repl` before every character and at the end. */
  function Replace(s: string, target: string, repl: string): string
  {
    ReplaceFrom(s, 0, target, repl)
  }

  /** What `replace` produces for the part of `s` from index `i` on. */
  function ReplaceFrom(s: string, i: nat, target: string, repl: string): string
    requires i <= |s|
    decreases |s| - i
  {
    if target == [] then
      repl + (if i == |s| then [] else [s[i]] + ReplaceFrom(s, i + 1, target, repl))
    else if OccursAt(target, s, i) then
      repl + ReplaceFrom(s, i + |target|, target, repl)
    else if i == |s| then
      []
    else
      [s[i]] + ReplaceFrom(s, i + 1, target, repl)
  }

  /** No occurrence of `target` starts in `s` at an index from `lo` up to `hi`. */
  predicate NoOccurrenceIn(target: string, s: string, lo: int, hi: int)
  {
    forall i :: lo <= i < hi ==> !OccursAt(target, s, i)
  }

  /** Characters at which no occurrence of `target` starts are copied through unchanged. */
  lemma {:induction false} ReplaceCopies(s: string, lo: nat, hi: nat, target: string, repl: string)
    requires target != [] && lo <= hi <= |s| && NoOccurrenceIn(target, s, lo, hi)
    ensures ReplaceFrom(s, lo, target, repl) == s[lo..hi] + ReplaceFrom(s, hi, target, repl)
    decreases hi - lo
  {
    if lo < hi {
      assert !OccursAt(target, s, lo);
      ReplaceCopies(s, lo + 1, hi, target, repl);
      assert s[lo..hi] == [s[lo]] + s[lo + 1..hi];
      ConcatAssoc([s[lo]], s[lo + 1..hi], ReplaceFrom(s, hi, target, repl));
    }
  }

  /** A string in which `target` does not occur comes back from `replace` unchanged. */
  lemma ReplaceAbsent(s: string, target: string, repl: string)
    requires target != [] && !Contains(target, s)
    ensures Replace(s, target, repl) == s
  {
    ContainsOccurs(target, s);
    ReplaceCopies(s, 0, |s|, target, repl);
    assert !OccursAt(target, s, |s|);
    assert s[0..|s|] == s;
  }

  /** When `target` occurs in `p + target` only at the end, only that occurrence is replaced. */
  lemma ReplaceSuffix(p: string, target: string, repl: string)
    requires target != [] && NoOccurrenceIn(target, p + target, 0, |p|)
    ensures Replace(p + target, target, repl) == p + repl
  {
    var s := p + target;
    ReplaceCopies(s, 0, |p|, target, repl);
    assert s[0..|p|] == p;
    assert OccursAt(target, s, |p|);
    assert !OccursAt(target, s, |s|);
  }

  /** Replacing `target` in a string in which it occurs exactly at `lo` and at the end,
      and nowhere else that the scan reaches, replaces both occurrences. */
  lemma ReplaceTwo(s: string, target: string, repl: string, lo: nat, hi: nat)
    requires target != [] && lo + |target| <= hi && hi + |target| == |s|
    requires NoOccurrenceIn(target, s, 0, lo) && OccursAt(target, s, lo)
    requires NoOccurrenceIn(target, s, lo + |target|, hi) && OccursAt(target, s, hi)
    ensures Replace(s, target, repl) == s[..lo] + repl + s[lo + |target|..hi] + repl
  {
    var rest := ReplaceFrom(s, lo + |target|, target, repl);
    ReplaceFirst(s, lo, target, repl);
    ReplaceCopies(s, lo + |target|, hi, target, repl);
    ReplaceLast(s, hi, target, repl);
    Regroup(s[..lo], repl, s[lo + |target|..hi], Replace(s, target, repl), repl + rest, rest);
  }

  /** The first occurrence, at `lo`, is replaced and the text before it copied. */
  lemma ReplaceFirst(s: string, lo: nat, target: string, repl: string)
    requires target != [] && NoOccurrenceIn(target, s, 0, lo) && OccursAt(target, s, lo)
    ensures Replace(s, target, repl) == s[..lo] + (repl + ReplaceFrom(s, lo + |target|, target, repl))
  {
    ReplaceCopies(s, 0, lo, target, repl);
    assert s[0..lo] == s[..lo];
  }

  /** An occurrence that ends the string is replaced and nothing follows it. */
  lemma ReplaceLast(s: string, i: nat, target: string, repl: string)
    requires target != [] && OccursAt(target, s, i) && i + |target| == |s|
    ensures ReplaceFrom(s, i, target, repl) == repl
  {
    assert !OccursAt(target, s, |s|);
  }

  /** The regrouping that turns the scan's steps into the whole result. */
  lemma Regroup(a: string, r: string, m: string, x: string, y: string, t: string)
    requires x == a + y && y == r + t && t == m + r
    ensures x == a + r + m + r
  {
    ConcatAssoc(a, r, m + r);
    ConcatAssoc(a + r, m, r);
  }

  /** Replacing `target` swaps an earlier occurrence as well as the final one:
      `pre + target + mid + target` becomes `pre + repl + mid + repl`. */
  lemma ReplaceBothOccurrences(pre: string, mid: string, target: string, repl: string)
    requires target != []
    requires NoOccurrenceIn(target, pre + target + mid + target, 0, |pre|)
    requires NoOccurrenceIn(target, pre + target + mid + target, |pre| + |target|, |pre| + |target| + |mid|)
    ensures Replace(pre + target + mid + target, target, repl) == pre + repl + mid + repl
  {
    var s := pre + target + mid + target;
    var lo, hi := |pre|, |pre| + |target| + |mid|;
    assert s[lo..lo + |target|] == target;
    assert s[hi..hi + |target|] == target;
    ReplaceTwo(s, target, repl, lo, hi);
    assert s[..lo] == pre;
    assert s[lo + |target|..hi] == mid;
  }

  /** `replace` replaces every non-overlapping occurrence, scanning from the left: the first
      occurrence becomes `repl`, the text before it is kept, and the rest of the string after
      it is replaced on its own. Together with `ReplaceAbsent` this fixes the result for any
      number and position of occurrences. */
  lemma ReplaceEvery(pre: string, target: string, post: string, repl: string)
    requires target != [] && NoOccurrenceIn(target, pre + target + post, 0, |pre|)
    ensures Replace(pre + target + post, target, repl) == pre + repl + Replace(post, target, repl)
  {
    var s := pre + target + post;
    assert s[..|pre|] == pre && s[|pre|..|pre| + |target|] == target;
    ReplaceFirst(s, |pre|, target, repl);
    ReplaceAfter(pre + target, post, |pre| + |target|, target, repl);
    ConcatAssoc(pre, repl, Replace(post, target, repl));
  }

  /** The scan over `p + s` from the end of `p` replaces in `s` alone. */
  lemma ReplaceAfter(p: string, s: string, i: nat, target: string, repl: string)
    requires i == |p|
    ensures ReplaceFrom(p + s, i, target, repl) == Replace(s, target, repl)
  {
    ReplaceFromAfter(p, s, 0, target, repl);
  }

  /** The scan over `p + s` from inside `s` does what the scan over `s` alone does. */
  lemma {:induction false} ReplaceFromAfter(p: string, s: string, k: nat, target: string, repl: string)
    requires k <= |s|
    ensures ReplaceFrom(p + s, |p| + k, target, repl) == ReplaceFrom(s, k, target, repl)
    decreases |s| - k
  {
    if k == |s| {
      ScanEnd(p + s, target, repl);
      ScanEnd(s, target, repl);
    } else {
      var n := ScanNext(s, k, target);
      ReplaceFromAfter(p, s, n, target, repl);
      OccursAfter(p, s, k, target);
      assert (p + s)[|p| + k] == s[k];
      StepAgree(p + s, |p| + k, |p| + n, s, k, n, target, repl);
    }
  }

  /** Where the scan goes on from index `k`: past an occurrence that starts there, else to the
      next character. */
  function ScanNext(s: string, k: nat, target: string): (next: nat)
    requires k < |s|
    ensures k < next <= |s|
  {
    if target != [] && OccursAt(target, s, k) then k + |target| else k + 1
  }

  /** Two scans that stand on the same character, agree on whether an occurrence starts there
      and agree from where they go on, agree from here. */
  lemma StepAgree(x: string, i: nat, m: nat, s: string, k: nat, n: nat, target: string, repl: string)
    requires i < |x| && k < |s| && x[i] == s[k]
    requires OccursAt(target, x, i) <==> OccursAt(target, s, k)
    requires n == ScanNext(s, k, target) && m == ScanNext(x, i, target)
    requires ReplaceFrom(x, m, target, repl) == ReplaceFrom(s, n, target, repl)
    ensures ReplaceFrom(x, i, target, repl) == ReplaceFrom(s, k, target, repl)
  {
    if target == [] {
      ScanEmptyStep(x, i, m, target, repl);
      ScanEmptyStep(s, k, n, target, repl);
    } else if OccursAt(target, s, k) {
      ScanMatchStep(x, i, m, target, repl);
      ScanMatchStep(s, k, n, target, repl);
    } else {
      ScanCopyStep(x, i, m, target, repl);
      ScanCopyStep(s, k, n, target, repl);
    }
  }

  /** At the end of the string the scan adds `repl` for an empty target and nothing otherwise. */
  lemma ScanEnd(s: string, target: string, repl: string)
    ensures ReplaceFrom(s, |s|, target, repl) == if target == [] then repl else []
  {
    if target != [] {
      assert !OccursAt(target, s, |s|);
    }
  }

  /** One step of the scan for an empty target: `repl`, then the next character. */
  lemma ScanEmptyStep(s: string, i: nat, next: nat, target: string, repl: string)
    requires target == [] && i < |s| && next == i + 1
    ensures ReplaceFrom(s, i, target, repl) == repl + ([s[i]] + ReplaceFrom(s, next, target, repl))
  {
    var rest := ReplaceFrom(s, next, target, repl);
    assert ReplaceFrom(s, i, target, repl) == repl + ([s[i]] + rest);
  }

  /** One step of the scan at an occurrence: `repl`, then the scan after the occurrence. */
  lemma ScanMatchStep(s: string, i: nat, next: nat, target: string, repl: string)
    requires target != [] && OccursAt(target, s, i) && next == i + |target|
    ensures ReplaceFrom(s, i, target, repl) == repl + ReplaceFrom(s, next, target, repl)
  {
    var rest := ReplaceFrom(s, next, target, repl);
    assert ReplaceFrom(s, i, target, repl) == repl + rest;
  }

  /** One step of the scan at a character where no occurrence starts: that character is copied. */
  lemma ScanCopyStep(s: string, i: nat, next: nat, target: string, repl: string)
    requires target != [] && i < |s| && !OccursAt(target, s, i) && next == i + 1
    ensures ReplaceFrom(s, i, target, repl) == [s[i]] + ReplaceFrom(s, next, target, repl)
  {
    var rest := ReplaceFrom(s, next, target, repl);
    assert ReplaceFrom(s, i, target, repl) == [s[i]] + rest;
  }

  /** An occurrence at index `k` of `s` is one at index `|p| + k` of `p + s`, and back. */
  lemma OccursAfter(p: string, s: string, k: nat, target: string)
    requires k <= |s|
    ensures OccursAt(target, p + s, |p| + k) <==> OccursAt(target, s, k)
  {
    if k + |target| <= |s| {
      assert (p + s)[|p| + k..|p| + k + |target|] == s[k..k + |target|];
    }
  }

  /** Replacing the empty string by the empty string changes nothing. */
  lemma ReplaceEmptyByEmpty(s: string)
    ensures Replace(s, "", "") == s
  {
    ReplaceEmptyFrom(s, 0);
  }

  lemma {:induction false} ReplaceEmptyFrom(s: string, i: nat)
    requires i <= |s|
    ensures ReplaceFrom(s, i, "", "") == s[i..]
    decreases |s| - i
  {
    if i < |s| {
      ReplaceEmptyFrom(s, i + 1);
      assert s[i..] == [s[i]] + s[i + 1..];
    }
  }

  /** `posixpath.basename(p)`: `p[p.rfind('/') + 1:]`, what follows the last '/' of `p`. */
  function Basename(p: string): (b: string)
    ensures |b| <= |p| && b == p[|p| - |b|..]
    ensures '/' !in b
    ensures |b| < |p| ==> p[|p| - |b| - 1] == '/'
  {
    var i := RFind(p, '/', |p|);
    p[i + 1..]
  }

  /** `p.rfind(c, 0, end)`: the last index before `end` holding `c`, or -1 when there is none. */
  function RFind(p: string, c: char, end: nat): (i: int)
    requires end <= |p|
    ensures -1 <= i < end
    ensures i >= 0 ==> p[i] == c
    ensures forall j :: i < j < end ==> p[j] != c
  {
    if end == 0 then -1
    else if p[end - 1] == c then end - 1
    else RFind(p, c, end - 1)
  }

  /** `c.isspace()`: the characters Python counts as whitespace. */
  predicate IsSpace(c: char): (space: bool)
    ensures c == ' ' || c == '\t' || c == '\n' || c == '\r' ==> space
    ensures '0' <= c <= '9' || 'A' <= c <= 'Z' || 'a' <= c <= 'z' ==> !space
  {
    var k := c as int;
    (9 <= k <= 13) || (28 <= k <= 32) || k == 0x85 || k == 0xA0 || k == 0x1680 ||
    (0x2000 <= k <= 0x200A) || k == 0x2028 || k == 0x2029 || k == 0x202F || k == 0x205F || k == 0x3000
  }

  /** A token `str.split()` can produce: non-empty and free of whitespace. */
  predicate IsWord(w: string)
  {
    w != [] && forall i :: 0 <= i < |w| ==> !IsSpace(w[i])
  }

  /** The length of the longest whitespace-free prefix of `s`. */
  function WordLength(s: string): (k: nat)
    ensures k <= |s|
    ensures forall i :: 0 <= i < k ==> !IsSpace(s[i])
    ensures k == |s| || IsSpace(s[k])
  {
    if s == [] || IsSpace(s[0]) then 0 else 1 + WordLength(s[1..])
  }

  /** `s.split()`: the maximal runs of non-whitespace characters, in order. */
  function Split(s: string): (r: seq<string>)
    ensures forall k :: 0 <= k < |r| ==> IsWord(r[k])
    decreases |s|
  {
    if s == [] then []
    else if IsSpace(s[0]) then Split(s[1..])
    else
      var k := WordLength(s);
      [s[..k]] + Split(s[k..])
  }

  /** `" ".join(words)`: a helper for the split lemmas, not an operation of the script. */
  function Join(words: seq<string>): string
  {
    if words == [] then ""
    else if |words| == 1 then words[0]
    else words[0] + " " + Join(words[1..])
  }

  /** `s` with every whitespace character dropped. */
  function NonSpace(s: string): string
  {
    if s == [] then [] else (if IsSpace(s[0]) then [] else [s[0]]) + NonSpace(s[1..])
  }

  /** `split()` drops whitespace and nothing else: its tokens, laid end to end, are the
      non-whitespace characters of `s` in order. */
  lemma {:induction false} SplitKeepsText(s: string)
    ensures Concat(Split(s)) == NonSpace(s)
    decreases |s|
  {
    if s != [] {
      if IsSpace(s[0]) {
        SplitKeepsText(s[1..]);
      } else {
        var k := WordLength(s);
        SplitKeepsText(s[k..]);
        assert ([s[..k]] + Split(s[k..]))[1..] == Split(s[k..]);
        NonSpaceWord(s, k);
      }
    }
  }

  /** A whitespace-free prefix of length `k` passes `NonSpace` unchanged. */
  lemma {:induction false} NonSpaceWord(s: string, k: nat)
    requires k <= |s| && forall i :: 0 <= i < k ==> !IsSpace(s[i])
    ensures NonSpace(s) == s[..k] + NonSpace(s[k..])
    decreases k
  {
    if k > 0 {
      NonSpaceWord(s[1..], k - 1);
      assert s[1..][k - 1..] == s[k..];
      assert s[..k] == [s[0]] + s[1..][..k - 1];
    }
  }

  /** Splitting words joined by single spaces gives the words back. */
  lemma {:induction false} SplitJoin(words: seq<string>)
    requires forall k :: 0 <= k < |words| ==> IsWord(words[k])
    ensures Split(Join(words)) == words
    decreases |words|
  {
    if words != [] {
      var w := words[0];
      var tail := if |words| == 1 then "" else " " + Join(words[1..]);
      assert Join(words) == w + tail;
      SplitWord(w, tail);
      if |words| > 1 {
        SplitJoin(words[1..]);
        assert Split(tail) == Split(Join(words[1..]));
      }
    }
  }

  /** A word followed by nothing or by whitespace is the first token of the split. */
  lemma SplitWord(w: string, tail: string)
    requires IsWord(w) && (tail == [] || IsSpace(tail[0]))
    ensures Split(w + tail) == [w] + Split(tail)
  {
    var s := w + tail;
    WordLengthOf(w, tail);
    assert s[..|w|] == w && s[|w|..] == tail;
  }

  lemma {:induction false} WordLengthOf(w: string, tail: string)
    requires forall i :: 0 <= i < |w| ==> !IsSpace(w[i])
    requires tail == [] || IsSpace(tail[0])
    ensures WordLength(w + tail) == |w|
    decreases |w|
  {
    if w != [] {
      assert (w + tail)[1..] == w[1..] + tail;
      WordLengthOf(w[1..], tail);
    }
  }

  /** `s` holds whitespace only (possibly nothing). */
  predicate AllSpace(s: string)
  {
    forall i :: 0 <= i < |s| ==> IsSpace(s[i])
  }

  /** Leading whitespace, however long and of whatever kind, produces no token. */
  lemma {:induction false} SplitLeadingSpace(sp: string, rest: string)
    requires AllSpace(sp)
    ensures Split(sp + rest) == Split(rest)
    decreases |sp|
  {
    if sp == [] {
      assert sp + rest == rest;
    } else {
      assert (sp + rest)[0] == sp[0];
      assert (sp + rest)[1..] == sp[1..] + rest;
      SplitLeadingSpace(sp[1..], rest);
    }
  }

  /** `words` laid out with `gaps[k]` before word `k` and the last gap after the last word. */
  function Interleave(words: seq<string>, gaps: seq<string>): string
    requires |gaps| == |words| + 1
  {
    if words == [] then gaps[0] else gaps[0] + words[0] + Interleave(words[1..], gaps[1..])
  }

  /** `split()` treats every run of whitespace as one separator and ignores whitespace at
      either end: words separated by non-empty whitespace runs (spaces, tabs, newlines, in
      any number), with any whitespace before the first and after the last, come back as
      the words, as for "1  2\t3". */
  lemma {:induction false} SplitRuns(words: seq<string>, gaps: seq<string>)
    requires |gaps| == |words| + 1
    requires forall k :: 0 <= k < |words| ==> IsWord(words[k])
    requires forall k :: 0 <= k < |gaps| ==> AllSpace(gaps[k])
    requires forall k :: 0 < k < |words| ==> gaps[k] != []
    ensures Split(Interleave(words, gaps)) == words
    decreases |words|
  {
    if words == [] {
      assert gaps[0] + [] == gaps[0];
      SplitLeadingSpace(gaps[0], []);
    } else {
      var tail := Interleave(words[1..], gaps[1..]);
      assert Interleave(words, gaps) == gaps[0] + (words[0] + tail);
      SplitLeadingSpace(gaps[0], words[0] + tail);
      assert gaps[1..][0] == gaps[1];
      assert gaps[1] != [] ==> tail[0] == gaps[1][0];
      SplitWord(words[0], tail);
      SplitRuns(words[1..], gaps[1..]);
    }
  }
}
