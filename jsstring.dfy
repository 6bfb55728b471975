/** The JavaScript string methods the application calls, over `seq<char>`:
    `indexOf` / `includes`, `replace` with a string pattern (first
    occurrence only), `split` on a one-character separator, and
    `toUpperCase` restricted to the ASCII letters. */
module JsString {
  import opened Seqs

  /** t occurs in s starting at index k. */
  predicate OccursAt(s: string, t: string, k: int)
  {
    0 <= k && k + |t| <= |s| && s[k..k + |t|] == t
  }

  /** `s.indexOf(t, from)`: the first occurrence of t at or after `from`. */
  function IndexOfFrom(s: string, t: string, from: nat): (r: int)
    requires from <= |s| + 1
    ensures r == -1 || (from <= r && OccursAt(s, t, r))
    decreases |s| + 1 - from
  {
    if from + |t| > |s| then -1
    else if s[from..from + |t|] == t then from
    else IndexOfFrom(s, t, from + 1)
  }

  /** No occurrence at or after `from` comes before the one found, and -1
      means there is none. */
  lemma {:induction false} IndexOfFromFirst(s: string, t: string, from: nat)
    requires from <= |s| + 1
    ensures var r := IndexOfFrom(s, t, from);
      && (r == -1 ==> forall k :: from <= k ==> !OccursAt(s, t, k))
      && (r != -1 ==> forall k :: from <= k < r ==> !OccursAt(s, t, k))
    decreases |s| + 1 - from
  {
    if from + |t| <= |s| && s[from..from + |t|] != t {
      IndexOfFromFirst(s, t, from + 1);
    }
  }

  /** `s.indexOf(t)`: the first index at which t occurs in s, or -1. */
  function IndexOf(s: string, t: string): (r: int)
    ensures r == -1 || OccursAt(s, t, r)
  {
    IndexOfFrom(s, t, 0)
  }

  /** indexOf finds the first occurrence, and -1 exactly when there is none. */
  lemma IndexOfFirst(s: string, t: string)
    ensures IndexOf(s, t) == -1 <==> forall k :: !OccursAt(s, t, k)
    ensures IndexOf(s, t) != -1 ==> forall k :: k < IndexOf(s, t) ==> !OccursAt(s, t, k)
  {
    IndexOfFromFirst(s, t, 0);
  }

  /** `s.includes(t)` */
  predicate Includes(s: string, t: string)
  {
    IndexOf(s, t) != -1
  }

  /** `s.replace(pattern, replacement)` with a string pattern: only the
      first occurrence is replaced; without one, s is returned unchanged. */
  function ReplaceFirst(s: string, pattern: string, replacement: string): (r: string)
  {
    var i := IndexOf(s, pattern);
    if i == -1 then s else s[..i] + replacement + s[i + |pattern|..]
  }

  /** Replacing the first occurrence: a string u + pattern + v in which the
      pattern does not start inside u becomes u + replacement + v. */
  lemma ReplaceFirstAt(u: string, pattern: string, v: string, replacement: string)
    requires forall k :: 0 <= k < |u| ==> !OccursAt(u + pattern + v, pattern, k)
    ensures ReplaceFirst(u + pattern + v, pattern, replacement) == u + replacement + v
  {
    var s := u + pattern + v;
    assert OccursAt(s, pattern, |u|) by { assert s[|u|..|u| + |pattern|] == pattern; }
    var i := IndexOf(s, pattern);
    IndexOfFirst(s, pattern);
    assert i == |u|;
    assert s[..i] == u && s[i + |pattern|..] == v;
  }

  /** A one-character pattern not in u first occurs right after u. */
  lemma SingleCharFirst(u: string, c: char, v: string)
    requires c !in u
    ensures forall k :: 0 <= k < |u| ==> !OccursAt(u + [c] + v, [c], k)
  {
    var s := u + [c] + v;
    forall k | 0 <= k < |u| ensures !OccursAt(s, [c], k) {
      assert s[k] == u[k];
    }
  }

  /** A string without the pattern is returned as it is. */
  lemma ReplaceFirstAbsent(s: string, pattern: string, replacement: string)
    requires forall k :: !OccursAt(s, pattern, k)
    ensures ReplaceFirst(s, pattern, replacement) == s
  {
    IndexOfFirst(s, pattern);
  }

  /** `s.split(c)` for a one-character separator: the pieces between the
      separators, so "".split(c) is [""]. */
  function Split(s: string, c: char): (r: seq<string>)
    ensures |r| >= 1
    decreases |s|
  {
    if |s| == 0 then [""]
    else
      var rest := Split(s[1..], c);
      if s[0] == c then [""] + rest else [[s[0]] + rest[0]] + rest[1..]
  }

  /** `parts.join(c)` */
  function Join(parts: seq<string>, c: char): string
  {
    if |parts| == 0 then ""
    else if |parts| == 1 then parts[0]
    else parts[0] + [c] + Join(parts[1..], c)
  }

  lemma JoinCons(head: string, rest: seq<string>, c: char)
    requires |rest| >= 1
    ensures Join([head] + rest, c) == head + [c] + Join(rest, c)
  {
    assert ([head] + rest)[0] == head;
    assert ([head] + rest)[1..] == rest;
  }

  /** Prefixing the first part prefixes the joined string. */
  lemma JoinExtendFirst(a: string, parts: seq<string>, c: char)
    requires |parts| >= 1
    ensures Join([a + parts[0]] + parts[1..], c) == a + Join(parts, c)
  {
    var q := [a + parts[0]] + parts[1..];
    if |parts| > 1 {
      assert q[1..] == parts[1..];
    }
  }

  /** Splitting loses nothing: joining the pieces with the separator gives
      back the string. */
  lemma {:induction false} SplitJoin(s: string, c: char)
    ensures Join(Split(s, c), c) == s
    decreases |s|
  {
    if |s| > 0 {
      var rest := Split(s[1..], c);
      SplitJoin(s[1..], c);
      if s[0] == c {
        JoinCons("", rest, c);
      } else {
        JoinExtendFirst([s[0]], rest, c);
      }
      assert s == [s[0]] + s[1..];
    }
  }

  /** No piece of a split contains the separator. */
  lemma {:induction false} SplitPiecesFree(s: string, c: char)
    ensures forall k :: 0 <= k < |Split(s, c)| ==> c !in Split(s, c)[k]
    decreases |s|
  {
    if |s| > 0 {
      var rest := Split(s[1..], c);
      SplitPiecesFree(s[1..], c);
      var parts := Split(s, c);
      forall k | 0 <= k < |parts| ensures c !in parts[k] {
        if s[0] == c {
          if k > 0 { assert parts[k] == rest[k - 1]; }
        } else if k > 0 {
          assert parts[k] == rest[k];
        } else {
          assert parts[0] == [s[0]] + rest[0];
          assert c !in rest[0];
        }
      }
    }
  }

  /** There is one more piece than there are separators. */
  lemma {:induction false} SplitCount(s: string, c: char)
    ensures |Split(s, c)| == Count(s, c) + 1
    decreases |s|
  {
    if |s| > 0 {
      SplitCount(s[1..], c);
      assert s == [s[0]] + s[1..];
      CountConcat([s[0]], s[1..], c);
      assert [s[0]][..0] == [];
    }
  }

  lemma {:induction false} CountConcat<T>(s: seq<T>, t: seq<T>, x: T)
    ensures Count(s + t, x) == Count(s, x) + Count(t, x)
    decreases |t|
  {
    if |t| == 0 {
      assert s + t == s;
    } else {
      var init := t[..|t| - 1];
      CountConcat(s, init, x);
      assert s + t == (s + init) + [t[|t| - 1]];
      CountAppend(s + init, t[|t| - 1], x);
      assert t == init + [t[|t| - 1]];
      CountAppend(init, t[|t| - 1], x);
    }
  }

  /** A string without the separator is a single piece. */
  lemma {:induction false} SplitNoSeparator(s: string, c: char)
    requires c !in s
    ensures Split(s, c) == [s]
    decreases |s|
  {
    if |s| > 0 {
      SplitNoSeparator(s[1..], c);
      assert [s[0]] + s[1..] == s;
    }
  }

  /** A separator-free prefix joins the first piece. */
  lemma {:induction false} SplitPrefix(a: string, t: string, c: char)
    requires c !in a
    ensures Split(a + t, c) == [a + Split(t, c)[0]] + Split(t, c)[1..]
    decreases |a|
  {
    if |a| == 0 {
      assert a + t == t && a + Split(t, c)[0] == Split(t, c)[0];
      assert Split(t, c) == [Split(t, c)[0]] + Split(t, c)[1..];
    } else {
      SplitPrefix(a[1..], t, c);
      var S := Split(t, c);
      assert (a + t)[1..] == a[1..] + t;
      assert (a + t)[0] == a[0] && a[0] != c;
      var R := Split(a[1..] + t, c);
      assert R[0] == a[1..] + S[0] && R[1..] == S[1..];
      assert Split(a + t, c) == [[a[0]] + R[0]] + R[1..];
      assert [a[0]] + (a[1..] + S[0]) == a + S[0];
    }
  }

  /** Splitting a + [c] + b where neither part holds c gives [a, b]. */
  lemma SplitTwo(a: string, b: string, c: char)
    requires c !in a && c !in b
    ensures Split(a + [c] + b, c) == [a, b]
  {
    assert a + [c] + b == a + ([c] + b);
    SplitPrefix(a, [c] + b, c);
    assert ([c] + b)[1..] == b;
    SplitNoSeparator(b, c);
    assert Split([c] + b, c) == [""] + [b];
    assert a + "" == a;
  }

  /** ASCII case conversion to upper case. */
  function UpperChar(ch: char): char
  {
    if 'a' <= ch <= 'z' then (ch as int - 32) as char else ch
  }

  /** `s.toUpperCase()` on the ASCII letters. */
  function ToUpperCase(s: string): (r: string)
    ensures |r| == |s|
    ensures forall k :: 0 <= k < |s| ==> r[k] == UpperChar(s[k])
  {
    seq(|s|, k requires 0 <= k < |s| => UpperChar(s[k]))
  }

  /** Upper-casing twice changes nothing more. */
  lemma UpperIdempotent(s: string)
    ensures ToUpperCase(ToUpperCase(s)) == ToUpperCase(s)
  {
  }

  /** Every occurrence of the character `from` replaced by `to`. */
  function ReplaceAllChar(s: string, from: char, to: char): (r: string)
    ensures |r| == |s|
    ensures forall k :: 0 <= k < |s| ==> r[k] == (if s[k] == from then to else s[k])
  {
    seq(|s|, k requires 0 <= k < |s| => if s[k] == from then to else s[k])
  }
}
