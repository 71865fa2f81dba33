/**
 * The Python string operations the pipeline uses, written out over `seq<char>`:
 * `lower()`, `startswith`, the `in` substring test, `strip()`, `" ".join`, and `split()`
 * without arguments. An order-preserving subsequence relation is defined for the filters.
 */
module Text {
  import opened Chars

  /** `s.lower()`, character by character. */
  function LowerStr(s: string): (r: string)
  {
    seq(|s|, i requires 0 <= i < |s| => Lower(s[i]))
  }

  /** No character of `s` changes under `Lower`. */
  ghost predicate IsLower(s: string)
  {
    forall i :: 0 <= i < |s| ==> Lower(s[i]) == s[i]
  }

  lemma {:induction false} LowerStrIsLower(s: string)
    ensures |LowerStr(s)| == |s|
    ensures IsLower(LowerStr(s))
    ensures LowerStr(LowerStr(s)) == LowerStr(s)
  {
    forall i | 0 <= i < |s| ensures Lower(LowerStr(s)[i]) == LowerStr(s)[i] {
      LowerIdempotent(s[i]);
    }
  }

  lemma {:induction false} LowerStrOfLower(s: string)
    requires IsLower(s)
    ensures LowerStr(s) == s
  {
  }

  /** `s.startswith(p)`. */
  predicate IsPrefix(p: string, s: string)
  {
    |p| <= |s| && s[..|p|] == p
  }

  /** `sub in s`: `sub` occurs in `s` at some position, scanning from the left. */
  predicate Contains(s: string, sub: string)
    decreases |s|
  {
    IsPrefix(sub, s) || (s != [] && Contains(s[1..], sub))
  }

  /** `sub` is the slice of `s` that starts at position `i`. */
  predicate OccursAt(s: string, sub: string, i: int)
  {
    0 <= i <= |s| - |sub| && s[i..i + |sub|] == sub
  }

  /** The scan finds `sub` exactly when some slice of `s` equals it. */
  lemma {:induction false} ContainsAt(s: string, sub: string)
    ensures Contains(s, sub) <==> exists i :: OccursAt(s, sub, i)
    decreases |s|
  {
    if IsPrefix(sub, s) {
      assert OccursAt(s, sub, 0);
    }
    if s != [] {
      ContainsAt(s[1..], sub);
      if Contains(s[1..], sub) {
        var i :| OccursAt(s[1..], sub, i);
        assert s[i + 1..i + 1 + |sub|] == s[1..][i..i + |sub|];
        assert OccursAt(s, sub, i + 1);
      }
      if exists i :: OccursAt(s, sub, i) {
        var i :| OccursAt(s, sub, i);
        if i > 0 {
          assert s[1..][i - 1..i - 1 + |sub|] == s[i..i + |sub|];
          assert OccursAt(s[1..], sub, i - 1);
        }
      }
    } else if exists i :: OccursAt(s, sub, i) {
      var i :| OccursAt(s, sub, i);
      assert |sub| == 0;
    }
  }

  /** `s.lstrip()`: the suffix of `s` left after dropping its leading whitespace. */
  function StripLeft(s: string): (r: string)
    ensures |r| <= |s|
    ensures r == [] || !IsSpace(r[0])
    decreases |s|
  {
    if s != [] && IsSpace(s[0]) then StripLeft(s[1..]) else s
  }

  /** `lstrip()` keeps a suffix of `s`, and everything it drops is whitespace. */
  lemma {:induction false} StripLeftDropsSpaces(s: string)
    ensures StripLeft(s) == s[|s| - |StripLeft(s)|..]
    ensures forall i :: 0 <= i < |s| - |StripLeft(s)| ==> IsSpace(s[i])
    decreases |s|
  {
    if s != [] && IsSpace(s[0]) {
      StripLeftDropsSpaces(s[1..]);
      forall i | 0 < i < |s| - |StripLeft(s)| ensures IsSpace(s[i]) {
        assert s[i] == s[1..][i - 1];
      }
    }
  }

  /** `s.rstrip()`: the prefix of `s` left after dropping its trailing whitespace. */
  function StripRight(s: string): (r: string)
    ensures |r| <= |s|
    ensures r == [] || !IsSpace(r[|r| - 1])
    decreases |s|
  {
    if s != [] && IsSpace(s[|s| - 1]) then StripRight(s[..|s| - 1]) else s
  }

  /** `rstrip()` keeps a prefix of `s`, and everything it drops is whitespace. */
  lemma {:induction false} StripRightDropsSpaces(s: string)
    ensures StripRight(s) == s[..|StripRight(s)|]
    ensures forall i :: |StripRight(s)| <= i < |s| ==> IsSpace(s[i])
    decreases |s|
  {
    if s != [] && IsSpace(s[|s| - 1]) {
      StripRightDropsSpaces(s[..|s| - 1]);
      forall i | |StripRight(s)| <= i < |s| - 1 ensures IsSpace(s[i]) {
        assert s[i] == s[..|s| - 1][i];
      }
    }
  }

  /** `s.strip()`. */
  function Strip(s: string): string
  {
    StripRight(StripLeft(s))
  }

  /** Neither end of `s` is whitespace. */
  predicate IsStripped(s: string)
  {
    s == [] || (!IsSpace(s[0]) && !IsSpace(s[|s| - 1]))
  }

  /**
   * `strip()` keeps one slice `s[i..j]` whose ends are not whitespace and drops only whitespace
   * around it; it is the empty string exactly when `s` is all whitespace.
   */
  lemma {:induction false} StripSlice(s: string)
    ensures exists i, j ::
              && 0 <= i <= j <= |s| && Strip(s) == s[i..j]
              && (forall k :: 0 <= k < i ==> IsSpace(s[k]))
              && (forall k :: j <= k < |s| ==> IsSpace(s[k]))
    ensures IsStripped(Strip(s))
    ensures Strip(s) == [] <==> forall k :: 0 <= k < |s| ==> IsSpace(s[k])
  {
    var l := StripLeft(s);
    var r := StripRight(l);
    var i := |s| - |l|;
    StripLeftDropsSpaces(s);
    StripRightDropsSpaces(l);
    StripIsStripped(s);
    assert Strip(s) == s[i..i + |r|];
    if r != [] {
      assert r[0] == l[0] == s[i];
    }
    assert forall k :: i + |r| <= k < |s| ==> IsSpace(s[k]) by {
      forall k | i + |r| <= k < |s| ensures IsSpace(s[k]) {
        assert s[k] == l[k - i];
      }
    }
  }

  /** Neither end of `strip()`'s result is whitespace. */
  lemma StripIsStripped(s: string)
    ensures IsStripped(Strip(s))
  {
    var l := StripLeft(s);
    var r := StripRight(l);
    StripRightDropsSpaces(l);
    if r != [] {
      assert r[0] == l[0];
    }
  }

  /** Stripping a stripped string changes nothing, so `strip()` is idempotent. */
  lemma {:induction false} StripStripped(s: string)
    requires IsStripped(s)
    ensures Strip(s) == s
  {
    assert StripLeft(s) == s;
  }

  lemma StripIdempotent(s: string)
    ensures Strip(Strip(s)) == Strip(s)
  {
    StripIsStripped(s);
    StripStripped(Strip(s));
  }

  /** `sep.join(xs)`. */
  function Join(xs: seq<string>, sep: string): string
    decreases |xs|
  {
    if xs == [] then ""
    else if |xs| == 1 then xs[0]
    else xs[0] + sep + Join(xs[1..], sep)
  }

  /** Every element of a joined list occurs in the joined string. */
  lemma {:induction false} JoinContainsEach(xs: seq<string>, sep: string, k: nat)
    requires k < |xs|
    ensures Contains(Join(xs, sep), xs[k])
    decreases |xs|
  {
    var j := Join(xs, sep);
    ContainsAt(j, xs[k]);
    if |xs| == 1 {
      assert OccursAt(j, xs[k], 0);
    } else if k == 0 {
      assert j == xs[0] + (sep + Join(xs[1..], sep));
      assert OccursAt(j, xs[k], 0);
    } else {
      var rest := Join(xs[1..], sep);
      JoinContainsEach(xs[1..], sep, k - 1);
      ContainsAt(rest, xs[k]);
      var i :| OccursAt(rest, xs[k], i);
      var off := |xs[0]| + |sep|;
      assert j == (xs[0] + sep) + rest;
      assert j[off + i..off + i + |xs[k]|] == rest[i..i + |xs[k]|];
      assert OccursAt(j, xs[k], off + i);
    }
  }

  /** Occurrence is transitive: a piece of a piece of `s` is a piece of `s`. */
  lemma ContainsTransitive(s: string, mid: string, sub: string)
    requires Contains(s, mid) && Contains(mid, sub)
    ensures Contains(s, sub)
  {
    ContainsAt(s, mid);
    ContainsAt(mid, sub);
    ContainsAt(s, sub);
    var i :| OccursAt(s, mid, i);
    var j :| OccursAt(mid, sub, j);
    forall m | 0 <= m < |sub| ensures s[i + j + m] == sub[m] {
      assert sub[m] == mid[j + m];
      assert mid[j + m] == s[i + j + m];
    }
    assert s[i + j..i + j + |sub|] == sub;
    assert OccursAt(s, sub, i + j);
  }

  /** Whether `s` has no whitespace character at all. */
  predicate NoSpace(s: string)
  {
    forall i :: 0 <= i < |s| ==> !IsSpace(s[i])
  }

  /** The longest prefix of `s` without whitespace. */
  function TakeWord(s: string): (w: string)
    ensures IsPrefix(w, s) && NoSpace(w)
    ensures |w| == |s| || IsSpace(s[|w|])
    decreases |s|
  {
    if s == [] || IsSpace(s[0]) then [] else [s[0]] + TakeWord(s[1..])
  }

  /** `s.split()`: the maximal runs of non-whitespace characters, left to right. */
  function Words(s: string): (ws: seq<string>)
    ensures forall k :: 0 <= k < |ws| ==> ws[k] != [] && NoSpace(ws[k])
    decreases |s|
  {
    if s == [] then []
    else if IsSpace(s[0]) then Words(s[1..])
    else
      var w := TakeWord(s);
      [w] + Words(s[|w|..])
  }

  /** Every character of every word is a character of the input. */
  lemma {:induction false} WordsCharsFrom(s: string)
    ensures forall k, m :: 0 <= k < |Words(s)| && 0 <= m < |Words(s)[k]| ==> Words(s)[k][m] in s
    decreases |s|
  {
    if s == [] {
    } else if IsSpace(s[0]) {
      WordsCharsFrom(s[1..]);
    } else {
      var w := TakeWord(s);
      WordsCharsFrom(s[|w|..]);
      forall k, m | 0 <= k < |Words(s)| && 0 <= m < |Words(s)[k]| ensures Words(s)[k][m] in s {
        if k == 0 {
          assert Words(s)[k][m] == s[m];
        } else {
          assert Words(s)[k] == Words(s[|w|..])[k - 1];
          assert Words(s)[k][m] in s[|w|..];
        }
      }
    }
  }

  lemma {:induction false} TakeWordOf(w: string, t: string)
    requires NoSpace(w)
    requires t == [] || IsSpace(t[0])
    ensures TakeWord(w + t) == w
    decreases |w|
  {
    if w != [] {
      assert (w + t)[1..] == w[1..] + t;
      TakeWordOf(w[1..], t);
    }
  }

  /** `" ".join(ws).split() == ws` when the words are non-empty and have no whitespace. */
  lemma {:induction false} WordsOfJoin(ws: seq<string>)
    requires forall k :: 0 <= k < |ws| ==> ws[k] != [] && NoSpace(ws[k])
    ensures Words(Join(ws, " ")) == ws
    decreases |ws|
  {
    if ws == [] {
    } else if |ws| == 1 {
      TakeWordOf(ws[0], []);
      assert ws[0] + [] == ws[0];
      assert ws[0][|ws[0]|..] == [];
    } else {
      var w, rest := ws[0], Join(ws[1..], " ");
      var s := w + " " + rest;
      assert s == w + (" " + rest);
      TakeWordOf(w, " " + rest);
      assert s[|w|..] == " " + rest;
      assert (" " + rest)[1..] == rest;
      WordsOfJoin(ws[1..]);
    }
  }

  /** Every character of `s` is whitespace. */
  predicate AllSpace(s: string)
  {
    forall i :: 0 <= i < |s| ==> IsSpace(s[i])
  }

  /** A whitespace-only string has no words. */
  lemma {:induction false} WordsOfSpaces(sp: string)
    requires AllSpace(sp)
    ensures Words(sp) == []
    decreases |sp|
  {
    if sp != [] {
      WordsOfSpaces(sp[1..]);
    }
  }

  /** A non-empty string without whitespace is a single word. */
  lemma WordsOfWord(w: string)
    requires w != [] && NoSpace(w)
    ensures Words(w) == [w]
  {
    TakeWordOf(w, []);
    assert w + [] == w;
    assert w[|w|..] == [];
  }

  /** Leading whitespace does not change the words. */
  lemma {:induction false} WordsAfterSpaces(sp: string, b: string)
    requires AllSpace(sp)
    ensures Words(sp + b) == Words(b)
    decreases |sp|
  {
    if sp != [] {
      assert (sp + b)[0] == sp[0] && (sp + b)[1..] == sp[1..] + b;
      WordsAfterSpaces(sp[1..], b);
    } else {
      assert sp + b == b;
    }
  }

  /** Appending text that starts with whitespace does not change the first word. */
  lemma TakeWordBeforeSpace(a: string, t: string)
    requires t == [] || IsSpace(t[0])
    ensures TakeWord(a + t) == TakeWord(a)
  {
    var w := TakeWord(a);
    var rest := a[|w|..];
    assert a == w + rest;
    assert a + t == w + (rest + t);
    if rest != [] {
      assert (rest + t)[0] == rest[0] == a[|w|];
    } else {
      assert rest + t == t;
    }
    TakeWordOf(w, rest + t);
  }

  /**
   * `split()` cuts at every run of whitespace: the words of `a + sp + b`, for a non-empty
   * whitespace run `sp`, are the words of `a` followed by the words of `b`. With `WordsOfSpaces`
   * and `WordsOfWord` this fixes `Words` on every input, so no word is lost or reordered.
   */
  lemma {:induction false} WordsSplitAtSpaces(a: string, sp: string, b: string)
    requires sp != [] && AllSpace(sp)
    ensures Words(a + sp + b) == Words(a) + Words(b)
    decreases |a|
  {
    if a == [] {
      assert a + sp + b == sp + b;
      WordsAfterSpaces(sp, b);
    } else if IsSpace(a[0]) {
      WordsSplitAtSpaces(a[1..], sp, b);
      SplitSpaceCase(a, sp, b);
    } else {
      WordsSplitAtSpaces(a[|TakeWord(a)|..], sp, b);
      SplitWordCase(a, sp, b);
    }
  }

  lemma SplitSpaceCase(a: string, sp: string, b: string)
    requires a != [] && IsSpace(a[0])
    requires Words(a[1..] + sp + b) == Words(a[1..]) + Words(b)
    ensures Words(a + sp + b) == Words(a) + Words(b)
  {
    WordsSkipSpace(a, sp + b);
    Regroup(a, 1, sp, b);
  }

  lemma SplitWordCase(a: string, sp: string, b: string)
    requires a != [] && !IsSpace(a[0]) && sp != [] && IsSpace(sp[0])
    requires Words(a[|TakeWord(a)|..] + sp + b) == Words(a[|TakeWord(a)|..]) + Words(b)
    ensures Words(a + sp + b) == Words(a) + Words(b)
  {
    var w := TakeWord(a);
    var rest := a[|w|..];
    WordsStep(a, sp + b);
    Regroup(a, |w|, sp, b);
    ConsAppend(w, Words(rest), Words(b));
  }

  lemma ConsAppend<T>(x: T, p: seq<T>, q: seq<T>)
    ensures [x] + (p + q) == [x] + p + q
  {
  }

  lemma Regroup(a: string, n: nat, sp: string, b: string)
    requires n <= |a|
    ensures a + (sp + b) == a + sp + b && a[n..] + (sp + b) == a[n..] + sp + b
  {
  }

  /** Leading whitespace of `a` is skipped whatever follows `a`. */
  lemma WordsSkipSpace(a: string, t: string)
    requires a != [] && IsSpace(a[0])
    ensures Words(a + t) == Words(a[1..] + t) && Words(a) == Words(a[1..])
  {
    assert (a + t)[0] == a[0] && (a + t)[1..] == a[1..] + t;
  }

  /** Cutting off the first word of `a` commutes with appending text that starts with whitespace. */
  lemma WordsStep(a: string, t: string)
    requires a != [] && !IsSpace(a[0])
    requires t != [] && IsSpace(t[0])
    ensures Words(a + t) == [TakeWord(a)] + Words(a[|TakeWord(a)|..] + t)
    ensures Words(a) == [TakeWord(a)] + Words(a[|TakeWord(a)|..])
  {
    var w := TakeWord(a);
    TakeWordBeforeSpace(a, t);
    assert (a + t)[0] == a[0];
    assert |w| >= 1;
    assert (a + t)[|w|..] == a[|w|..] + t;
  }

  /** `a` is an order-preserving subsequence of `b`. */
  predicate IsSubsequence<T(==)>(a: seq<T>, b: seq<T>)
    decreases |b|
  {
    a == [] || (b != [] && ((a[0] == b[0] && IsSubsequence(a[1..], b[1..])) || IsSubsequence(a, b[1..])))
  }

  lemma {:induction false} SubsequenceMembers<T>(a: seq<T>, b: seq<T>)
    requires IsSubsequence(a, b)
    ensures forall x :: x in a ==> x in b
    decreases |b|
  {
    if a != [] {
      if a[0] == b[0] && IsSubsequence(a[1..], b[1..]) {
        SubsequenceMembers(a[1..], b[1..]);
        assert a == [a[0]] + a[1..];
      } else {
        SubsequenceMembers(a, b[1..]);
      }
    }
  }
}
