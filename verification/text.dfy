/** The parts of Python's `str` that the core relies on: whitespace as
    `str.isspace` defines it, `strip()`, `split()` without arguments,
    substring tests (`in`) and the code-point order of `<` and `max`. */
module Text {

  /** Python's `str.isspace`: the characters of Unicode category Zs or
      bidirectional class WS, B or S. */
  predicate IsSpace(c: char) {
    var n := c as int;
    || (9 <= n <= 13) || (28 <= n <= 32) || n == 0x85 || n == 0xA0 || n == 0x1680
    || (0x2000 <= n <= 0x200A) || n == 0x2028 || n == 0x2029 || n == 0x202F
    || n == 0x205F || n == 0x3000
  }

  /** On ASCII, `isspace` holds for the characters of Python's
      `string.whitespace` (space, tab, newline, carriage return, vertical
      tab, form feed) and for the four separators U+001C to U+001F. */
  lemma {:induction false} AsciiSpace(c: char)
    requires c as int < 128
    ensures IsSpace(c) <==> c in " \t\n\r\U{0B}\U{0C}" || '\U{1C}' <= c <= '\U{1F}'
  {
  }

  predicate AllSpace(s: string) {
    forall i :: 0 <= i < |s| ==> IsSpace(s[i])
  }

  /** A field as `split()` returns it: non-empty, without whitespace. */
  predicate IsField(w: string) {
    |w| > 0 && forall i :: 0 <= i < |w| ==> !IsSpace(w[i])
  }

  /** `sub` starts at position `i` of `s`. */
  predicate OccursAt(s: string, sub: string, i: nat) {
    i + |sub| <= |s| && s[i..i + |sub|] == sub
  }

  /** The first position at or after `i` that does not hold whitespace
      (`|s|` when there is none). */
  function SkipSpace(s: string, i: nat): (j: nat)
    requires i <= |s|
    ensures i <= j <= |s|
    ensures forall k :: i <= k < j ==> IsSpace(s[k])
    ensures j < |s| ==> !IsSpace(s[j])
    decreases |s| - i
  {
    if i < |s| && IsSpace(s[i]) then SkipSpace(s, i + 1) else i
  }

  /** The first position at or after `i` that holds whitespace (`|s|` when
      there is none). */
  function SkipField(s: string, i: nat): (j: nat)
    requires i <= |s|
    ensures i <= j <= |s|
    ensures forall k :: i <= k < j ==> !IsSpace(s[k])
    ensures j < |s| ==> IsSpace(s[j])
    decreases |s| - i
  {
    if i < |s| && !IsSpace(s[i]) then SkipField(s, i + 1) else i
  }

  /** One past the last position before `j` that does not hold whitespace
      (0 when there is none). */
  function BackSpace(s: string, j: nat): (i: nat)
    requires j <= |s|
    ensures i <= j
    ensures forall k :: i <= k < j ==> IsSpace(s[k])
    ensures i > 0 ==> !IsSpace(s[i - 1])
    decreases j
  {
    if j > 0 && IsSpace(s[j - 1]) then BackSpace(s, j - 1) else j
  }

  /** Python's `str.strip()`: the middle of `s` between its leading and its
      trailing whitespace; empty exactly when `s` is all whitespace. */
  function Strip(s: string): (r: string)
    ensures exists i: nat :: OccursAt(s, r, i) && AllSpace(s[..i]) && AllSpace(s[i + |r|..])
    ensures |r| > 0 ==> !IsSpace(r[0]) && !IsSpace(r[|r| - 1])
    ensures |r| == 0 <==> AllSpace(s)
  {
    var i := SkipSpace(s, 0);
    var j := BackSpace(s, |s|);
    if i == |s| then
      assert OccursAt(s, [], |s|) && s[..|s|] == s;
      []
    else
      assert i < j;
      assert OccursAt(s, s[i..j], i);
      s[i..j]
  }

  /** Whitespace around a string that neither starts nor ends with
      whitespace is what `strip()` removes. */
  lemma {:induction false} StripPadded(a: string, m: string, b: string)
    requires AllSpace(a) && AllSpace(b)
    requires |m| > 0 ==> !IsSpace(m[0]) && !IsSpace(m[|m| - 1])
    ensures Strip(a + m + b) == m
  {
    var s := a + m + b;
    if |m| == 0 {
      assert AllSpace(s) by {
        forall k | 0 <= k < |s| ensures IsSpace(s[k]) {
          if k < |a| { assert s[k] == a[k]; } else { assert s[k] == b[k - |a|]; }
        }
      }
    } else {
      assert s[|a|] == m[0] && s[|a| + |m| - 1] == m[|m| - 1];
      assert SkipSpace(s, 0) == |a|;
      assert BackSpace(s, |s|) == |a| + |m|;
      assert s[|a|..|a| + |m|] == m;
    }
  }

  /** Every string is its stripped middle with whitespace around it. */
  lemma {:induction false} StripSplit(s: string) returns (a: string, b: string)
    ensures AllSpace(a) && AllSpace(b) && s == a + Strip(s) + b
  {
    var m := Strip(s);
    var i: nat :| OccursAt(s, m, i) && AllSpace(s[..i]) && AllSpace(s[i + |m|..]);
    a, b := s[..i], s[i + |m|..];
    assert s == a + m + b;
  }

  /** Whitespace after a string, such as the `\n` or `\r\n` that ends a
      line read from a file, does not change what `strip()` returns. */
  lemma {:induction false} StripLineEnd(s: string, end: string)
    requires AllSpace(end)
    ensures Strip(s + end) == Strip(s)
  {
    var a, b := StripSplit(s);
    var m := Strip(s);
    AllSpaceJoin(b, end);
    assert s + end == a + m + (b + end);
    StripPadded(a, m, b + end);
  }

  /** Leading whitespace is skipped: the stripped string starts with the
      first character that is not whitespace. */
  lemma {:induction false} StripLead(a: string, s: string)
    requires AllSpace(a) && |s| > 0 && !IsSpace(s[0])
    ensures |Strip(a + s)| > 0 && Strip(a + s)[0] == s[0]
  {
    var t := a + s;
    assert t[|a|] == s[0];
    assert SkipSpace(t, 0) == |a|;
  }

  /** Python's `str.split()` without arguments: the maximal runs of
      non-whitespace characters of `s` from position `i` on, in order. */
  function SplitFrom(s: string, i: nat): (ws: seq<string>)
    requires i <= |s|
    ensures forall k :: 0 <= k < |ws| ==> IsField(ws[k])
    decreases |s| - i
  {
    var a := SkipSpace(s, i);
    if a == |s| then
      []
    else
      var b := SkipField(s, a);
      [s[a..b]] + SplitFrom(s, b)
  }

  /** There are no fields from `i` on exactly when only whitespace is
      left. */
  lemma {:induction false} SplitFromEmpty(s: string, i: nat)
    requires i <= |s|
    ensures |SplitFrom(s, i)| == 0 <==> AllSpace(s[i..])
  {
    var a := SkipSpace(s, i);
    if a < |s| {
      assert s[i..][a - i] == s[a];
    }
  }

  function Split(s: string): (ws: seq<string>)
    ensures forall k :: 0 <= k < |ws| ==> IsField(ws[k])
    ensures |ws| == 0 <==> AllSpace(s)
  {
    assert s[0..] == s;
    SplitFromEmpty(s, 0);
    SplitFrom(s, 0)
  }

  /** Separators as `split()` skips them: non-empty runs of whitespace. */
  predicate Gaps(seps: seq<string>) {
    forall k :: 0 <= k < |seps| ==> |seps[k]| > 0 && AllSpace(seps[k])
  }

  /** The fields `ws` written out with `seps[k]` between `ws[k]` and
      `ws[k + 1]`. */
  function JoinWith(ws: seq<string>, seps: seq<string>): string
    requires |ws| == 0 || |seps| == |ws| - 1
    decreases |ws|
  {
    if |ws| == 0 then ""
    else if |ws| == 1 then ws[0]
    else ws[0] + seps[0] + JoinWith(ws[1..], seps[1..])
  }

  /** Joined fields start with the first field's first character and end
      with the last field's last character. */
  lemma {:induction false} JoinEnds(ws: seq<string>, seps: seq<string>)
    requires |ws| > 0 && |seps| == |ws| - 1
    requires forall k :: 0 <= k < |ws| ==> IsField(ws[k])
    ensures IsField(ws[0]) && IsField(ws[|ws| - 1])
    ensures |JoinWith(ws, seps)| > 0
    ensures JoinWith(ws, seps)[0] == ws[0][0]
    ensures JoinWith(ws, seps)[|JoinWith(ws, seps)| - 1] == ws[|ws| - 1][|ws[|ws| - 1]| - 1]
    decreases |ws|
  {
    if |ws| > 1 {
      JoinEnds(ws[1..], seps[1..]);
      var tail := JoinWith(ws[1..], seps[1..]);
      assert JoinWith(ws, seps) == ws[0] + seps[0] + tail;
      assert ws[1..][|ws[1..]| - 1] == ws[|ws| - 1];
    }
  }

  /** Joined fields neither start nor end with whitespace. */
  lemma {:induction false} JoinClean(ws: seq<string>, seps: seq<string>)
    requires |ws| == 0 || |seps| == |ws| - 1
    requires forall k :: 0 <= k < |ws| ==> IsField(ws[k])
    ensures var m := JoinWith(ws, seps);
      |m| > 0 ==> !IsSpace(m[0]) && !IsSpace(m[|m| - 1])
  {
    if |ws| > 0 {
      JoinEnds(ws, seps);
    }
  }

  /** A field that starts at `i` and ends at whitespace or the end of `s`
      is where both scans stop. */
  lemma {:induction false} FieldAt(s: string, i: nat, w: string)
    requires OccursAt(s, w, i) && IsField(w)
    requires i + |w| == |s| || IsSpace(s[i + |w|])
    ensures SkipSpace(s, i) == i
    ensures SkipField(s, i) == i + |w|
  {
    assert s[i] == w[0];
    var b := SkipField(s, i);
    forall k | i <= k < i + |w| ensures !IsSpace(s[k]) {
      assert s[k] == w[k - i];
    }
  }

  /** The fields of `s` from `i` on: the field starting there, then those
      after it. */
  lemma {:induction false} SplitFromField(s: string, i: nat, w: string)
    requires OccursAt(s, w, i) && IsField(w)
    requires i + |w| == |s| || IsSpace(s[i + |w|])
    ensures SplitFrom(s, i) == [w] + SplitFrom(s, i + |w|)
  {
    FieldAt(s, i, w);
  }

  /** Skipping whitespace from the start of a run of `n` whitespace
      characters ends where skipping from its end does. */
  lemma {:induction false} SkipGap(s: string, j: nat, n: nat)
    requires j + n <= |s|
    requires forall k :: j <= k < j + n ==> IsSpace(s[k])
    ensures SkipSpace(s, j) == SkipSpace(s, j + n)
    decreases n
  {
    if n > 0 {
      SkipGap(s, j + 1, n - 1);
    }
  }

  /** Whitespace before the next field does not change the fields. */
  lemma {:induction false} SplitFromGap(s: string, j: nat, n: nat)
    requires j + n <= |s|
    requires forall k :: j <= k < j + n ==> IsSpace(s[k])
    ensures SplitFrom(s, j) == SplitFrom(s, j + n)
  {
    SkipGap(s, j, n);
  }

  /** A field, a separator and more text at position `i` of `s`. */
  lemma {:induction false} FieldThenGap(s: string, i: nat, w: string, g: string, t: string)
    requires i <= |s| && s[i..] == w + g + t
    ensures OccursAt(s, w, i) && OccursAt(s, g, i + |w|)
    ensures s[i + |w| + |g|..] == t
  {
    assert s[i..][..|w|] == w;
    assert s[i..][|w|..|w| + |g|] == g;
    assert s[i..][|w| + |g|..] == t;
  }

  /** A field followed by `n` whitespace characters: the field, then the
      fields after them. */
  lemma {:induction false} SplitFromStep(s: string, i: nat, w: string, n: nat)
    requires OccursAt(s, w, i) && IsField(w) && n > 0 && i + |w| + n <= |s|
    requires forall k :: i + |w| <= k < i + |w| + n ==> IsSpace(s[k])
    ensures SplitFrom(s, i) == [w] + SplitFrom(s, i + |w| + n)
  {
    var j := i + |w|;
    assert IsSpace(s[j]);
    FieldAt(s, i, w);
    SkipGap(s, j, n);
    var ws, ws' := SplitFrom(s, j), SplitFrom(s, j + n);
    assert ws == ws';
    assert SplitFrom(s, i) == [w] + ws;
  }

  /** `s` holds, from position `i` on, the fields `ws` with `seps` between
      them, and then only whitespace. */
  predicate Joined(s: string, i: nat, ws: seq<string>, seps: seq<string>)
    requires |ws| == 0 || |seps| == |ws| - 1
    decreases |ws|
  {
    if |ws| == 0 then i <= |s| && AllSpace(s[i..])
    else
      && OccursAt(s, ws[0], i)
      && if |ws| == 1 then AllSpace(s[i + |ws[0]|..])
         else OccursAt(s, seps[0], i + |ws[0]|) && Joined(s, i + |ws[0]| + |seps[0]|, ws[1..], seps[1..])
  }

  lemma {:induction false} JoinedAt(s: string, i: nat, ws: seq<string>, seps: seq<string>, post: string)
    requires |ws| == 0 || |seps| == |ws| - 1
    requires i <= |s| && AllSpace(post) && s[i..] == JoinWith(ws, seps) + post
    ensures Joined(s, i, ws, seps)
    decreases |ws|
  {
    if |ws| == 0 {
      assert s[i..] == post;
    } else if |ws| == 1 {
      assert s[i..] == ws[0] + post;
      assert s[i..][..|ws[0]|] == ws[0];
      assert s[i + |ws[0]|..] == s[i..][|ws[0]|..] == post;
    } else {
      var w, g, t := ws[0], seps[0], JoinWith(ws[1..], seps[1..]);
      assert s[i..] == w + g + (t + post);
      FieldThenGap(s, i, w, g, t + post);
      JoinedAt(s, i + |w| + |g|, ws[1..], seps[1..], post);
    }
  }

  /** A field followed only by whitespace is the last field. */
  lemma {:induction false} SplitFromEnd(s: string, i: nat, w: string)
    requires OccursAt(s, w, i) && IsField(w) && AllSpace(s[i + |w|..])
    ensures SplitFrom(s, i) == [w]
  {
    if i + |w| < |s| {
      assert s[i + |w|..][0] == s[i + |w|];
    }
    SplitFromField(s, i, w);
    SplitFromEmpty(s, i + |w|);
  }

  lemma {:induction false} SplitJoined(s: string, i: nat, ws: seq<string>, seps: seq<string>)
    requires |ws| == 0 || |seps| == |ws| - 1
    requires Joined(s, i, ws, seps) && Gaps(seps)
    requires forall k :: 0 <= k < |ws| ==> IsField(ws[k])
    ensures SplitFrom(s, i) == ws
    decreases |ws|
  {
    if |ws| == 0 {
      SplitFromEmpty(s, i);
    } else if |ws| == 1 {
      SplitFromEnd(s, i, ws[0]);
    } else {
      SplitJoined(s, i + |ws[0]| + |seps[0]|, ws[1..], seps[1..]);
      SplitJoinedStep(s, i, ws, seps);
    }
  }

  /** The step of `SplitJoined`: the first field, then the fields after
      the separator that follows it. */
  lemma {:induction false} SplitJoinedStep(s: string, i: nat, ws: seq<string>, seps: seq<string>)
    requires |ws| > 1 && |seps| == |ws| - 1 && Joined(s, i, ws, seps)
    requires IsField(ws[0]) && |seps[0]| > 0 && AllSpace(seps[0])
    requires SplitFrom(s, i + |ws[0]| + |seps[0]|) == ws[1..]
    ensures SplitFrom(s, i) == ws
  {
    var w, n := ws[0], |seps[0]|;
    forall k | i + |w| <= k < i + |w| + n ensures IsSpace(s[k]) {
      assert s[k] == seps[0][k - i - |w|];
    }
    SplitFromStep(s, i, w, n);
    assert ws == [w] + ws[1..];
  }

  /** Splitting fields joined by runs of whitespace, with whitespace
      around them, gives the fields back. */
  lemma {:induction false} SplitJoin(pre: string, ws: seq<string>, seps: seq<string>, post: string)
    requires |ws| == 0 || |seps| == |ws| - 1
    requires AllSpace(pre) && AllSpace(post) && Gaps(seps)
    requires forall k :: 0 <= k < |ws| ==> IsField(ws[k])
    ensures Split(pre + JoinWith(ws, seps) + post) == ws
  {
    var s := pre + JoinWith(ws, seps) + post;
    assert s[|pre|..] == JoinWith(ws, seps) + post;
    JoinedAt(s, |pre|, ws, seps, post);
    SplitJoined(s, |pre|, ws, seps);
    forall k | 0 <= k < |pre| ensures IsSpace(s[k]) {
      assert s[k] == pre[k];
    }
    SplitFromGap(s, 0, |pre|);
  }

  /** Every string is its fields, joined by runs of whitespace, with
      whitespace around them. */
  lemma {:induction false} SplitDecompose(s: string) returns (pre: string, seps: seq<string>, post: string)
    ensures |Split(s)| == 0 || |seps| == |Split(s)| - 1
    ensures AllSpace(pre) && AllSpace(post) && Gaps(seps)
    ensures s == pre + JoinWith(Split(s), seps) + post
  {
    pre, seps, post := SplitFromDecompose(s, 0);
    assert s[0..] == s;
  }

  lemma {:induction false} SplitFromDecompose(s: string, i: nat) returns (pre: string, seps: seq<string>, post: string)
    requires i <= |s|
    ensures |SplitFrom(s, i)| == 0 || |seps| == |SplitFrom(s, i)| - 1
    ensures AllSpace(pre) && AllSpace(post) && Gaps(seps)
    ensures s[i..] == pre + JoinWith(SplitFrom(s, i), seps) + post
    decreases |s| - i
  {
    var a := SkipSpace(s, i);
    pre := s[i..a];
    assert AllSpace(pre) by {
      forall k | 0 <= k < |pre| ensures IsSpace(pre[k]) {
        assert pre[k] == s[i + k];
      }
    }
    if a == |s| {
      seps, post := [], [];
      assert s[i..] == pre;
    } else {
      var b := SkipField(s, a);
      var rest := SplitFrom(s, b);
      var pre', seps', post' := SplitFromDecompose(s, b);
      SplitFromNext(s, i);
      if |rest| == 0 {
        seps, post := [], s[b..];
        FieldDecomposed(s[i..], pre, s[a..b], s[b..], pre', rest, seps', post');
        AllSpaceJoin(pre', post');
      } else {
        seps, post := [pre'] + seps', post';
        SplitFromGapFirst(s, b, pre', rest, seps', post');
        FieldDecomposed(s[i..], pre, s[a..b], s[b..], pre', rest, seps', post');
      }
    }
  }

  /** One step of `SplitFrom` where a field is left: the whitespace before
      it, the field, and what follows it. */
  lemma {:induction false} SplitFromNext(s: string, i: nat)
    requires i <= |s| && SkipSpace(s, i) < |s|
    ensures var a := SkipSpace(s, i); var b := SkipField(s, a);
      && SplitFrom(s, i) == [s[a..b]] + SplitFrom(s, b)
      && s[i..] == s[i..a] + s[a..b] + s[b..]
  {
  }

  /** Putting a field and the whitespace before it in front of
      decomposed text. */
  lemma {:induction false} FieldDecomposed(x: string, pre: string, w: string, t: string,
                                          g: string, ws: seq<string>, seps: seq<string>, post: string)
    requires |ws| == 0 || |seps| == |ws| - 1
    requires x == pre + w + t && t == g + JoinWith(ws, seps) + post
    ensures |ws| == 0 ==> t == g + post && x == pre + JoinWith([w] + ws, []) + t
    ensures |ws| > 0 ==> x == pre + JoinWith([w] + ws, [g] + seps) + post
  {
    if |ws| == 0 {
      assert [w] + ws == [w];
    } else {
      JoinCons(w, g, ws, seps);
    }
  }

  /** Two runs of whitespace make one. */
  lemma {:induction false} AllSpaceJoin(a: string, b: string)
    requires AllSpace(a) && AllSpace(b)
    ensures AllSpace(a + b)
  {
    var s := a + b;
    forall k | 0 <= k < |s| ensures IsSpace(s[k]) {
      if k < |a| { assert s[k] == a[k]; } else { assert s[k] == b[k - |a|]; }
    }
  }

  /** Joining a first field onto joined fields. */
  lemma {:induction false} JoinCons(w: string, g: string, ws: seq<string>, seps: seq<string>)
    requires |ws| > 0 && |seps| == |ws| - 1
    ensures JoinWith([w] + ws, [g] + seps) == w + g + JoinWith(ws, seps)
  {
    assert ([w] + ws)[1..] == ws && ([g] + seps)[1..] == seps;
  }

  /** After a field, the padding before the next field is not empty: the
      field ends at whitespace. */
  lemma {:induction false} SplitFromGapFirst(s: string, b: nat, pre: string, ws: seq<string>, seps: seq<string>, post: string)
    requires b <= |s| && |ws| > 0 && |seps| == |ws| - 1
    requires forall k :: 0 <= k < |ws| ==> IsField(ws[k])
    requires b == |s| || IsSpace(s[b])
    requires s[b..] == pre + JoinWith(ws, seps) + post
    ensures |pre| > 0
  {
    JoinEnds(ws, seps);
    assert b < |s|;
    assert s[b..][0] == s[b];
  }

  /** `sub` occurs in `s` as a contiguous run (Python's `sub in s`). */
  predicate Contains(s: string, sub: string)
    decreases |s|
  {
    sub <= s || (|s| > 0 && Contains(s[1..], sub))
  }

  /** `Contains` finds exactly the occurrences at some position. */
  lemma {:induction false} ContainsAt(s: string, sub: string)
    ensures Contains(s, sub) <==> exists i: nat :: OccursAt(s, sub, i)
    decreases |s|
  {
    if OccursAt(s, sub, 0) {
      assert s[..|sub|] == sub;
    }
    if sub <= s {
      assert OccursAt(s, sub, 0);
    } else if |s| > 0 {
      ContainsAt(s[1..], sub);
      if Contains(s[1..], sub) {
        var i: nat :| OccursAt(s[1..], sub, i);
        assert s[1..][i..i + |sub|] == s[i + 1..i + 1 + |sub|];
        assert OccursAt(s, sub, i + 1);
      }
      if i: nat :| OccursAt(s, sub, i) {
        assert s[1..][i - 1..i - 1 + |sub|] == s[i..i + |sub|];
        assert OccursAt(s[1..], sub, i - 1);
      }
    }
  }

  /** Python's `<` on strings: code point by code point, a proper prefix
      first. */
  predicate StrLess(a: string, b: string)
    decreases |a|
  {
    if |a| == 0 then |b| > 0
    else if |b| == 0 then false
    else a[0] < b[0] || (a[0] == b[0] && StrLess(a[1..], b[1..]))
  }

  /** String order is a strict total order. */
  lemma {:induction false} StrLessIrreflexive(a: string)
    ensures !StrLess(a, a)
    decreases |a|
  {
    if |a| > 0 {
      StrLessIrreflexive(a[1..]);
    }
  }

  lemma {:induction false} StrLessTransitive(a: string, b: string, c: string)
    requires StrLess(a, b) && StrLess(b, c)
    ensures StrLess(a, c)
    decreases |a|
  {
    if |a| > 0 && |b| > 0 && |c| > 0 && a[0] == b[0] == c[0] {
      StrLessTransitive(a[1..], b[1..], c[1..]);
    }
  }

  lemma {:induction false} StrLessAsymmetric(a: string, b: string)
    ensures !(StrLess(a, b) && StrLess(b, a))
  {
    StrLessIrreflexive(a);
    if StrLess(a, b) && StrLess(b, a) {
      StrLessTransitive(a, b, a);
    }
  }

  lemma {:induction false} StrLessTotal(a: string, b: string)
    ensures a == b || StrLess(a, b) || StrLess(b, a)
    decreases |a|
  {
    if |a| > 0 && |b| > 0 && a[0] == b[0] {
      StrLessTotal(a[1..], b[1..]);
      if a[1..] == b[1..] {
        assert a == [a[0]] + a[1..] && b == [b[0]] + b[1..];
      }
    }
  }
}
