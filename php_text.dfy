/**
 * The PHP string and array built-ins that the router calls, restricted to
 * single-unit characters (one character stands for one byte, so PHP's byte
 * functions and its `mb_` functions agree).
 */
module PhpText {

  /** PHP truthiness of a string: "" and "0" are the only falsy strings. */
  predicate IsTruthy(s: string) {
    s != "" && s != "0"
  }

  /** True when s neither starts nor ends with a character of cs. */
  predicate IsTrimmed(s: string, cs: set<char>) {
    s == [] || (s[0] !in cs && s[|s| - 1] !in cs)
  }

  /**
   * trim($s, $cs): s without its leading and trailing characters of cs. Each
   * step drops one such character from the front, or else from the back.
   */
  function Trim(s: string, cs: set<char>): (r: string)
    ensures IsTrimmed(r, cs)
    ensures |r| <= |s|
    decreases |s|
  {
    if s != [] && s[0] in cs then Trim(s[1..], cs)
    else if s != [] && s[|s| - 1] in cs then Trim(s[..|s| - 1], cs)
    else s
  }

  /** What trim keeps is a slice s[k..k + |r|] of s, and everything it cuts on either side is a character of cs. */
  lemma {:induction false} TrimSlice(s: string, cs: set<char>) returns (k: nat)
    ensures k + |Trim(s, cs)| <= |s|
    ensures Trim(s, cs) == s[k..k + |Trim(s, cs)|]
    ensures forall i :: 0 <= i < k ==> s[i] in cs
    ensures forall i :: k + |Trim(s, cs)| <= i < |s| ==> s[i] in cs
    decreases |s|
  {
    var r := Trim(s, cs);
    if s != [] && s[0] in cs {
      var k1 := TrimSlice(s[1..], cs);
      k := k1 + 1;
      assert s[k..k + |r|] == s[1..][k1..k1 + |r|];
      forall i | 0 <= i < k ensures s[i] in cs {
        if i > 0 { assert s[i] == s[1..][i - 1]; }
      }
      forall i | k + |r| <= i < |s| ensures s[i] in cs {
        assert s[i] == s[1..][i - 1];
      }
    } else if s != [] && s[|s| - 1] in cs {
      var t := s[..|s| - 1];
      k := TrimSlice(t, cs);
      assert s[k..k + |r|] == t[k..k + |r|];
      forall i | k + |r| <= i < |s| ensures s[i] in cs {
        if i < |s| - 1 { assert s[i] == t[i]; }
      }
    } else {
      k := 0;
    }
  }

  /** Trimming a string that is already trimmed changes nothing. */
  lemma TrimOfTrimmed(s: string, cs: set<char>)
    requires IsTrimmed(s, cs)
    ensures Trim(s, cs) == s
  {
  }

  /** Trimming is idempotent. */
  lemma TrimIdempotent(s: string, cs: set<char>)
    ensures Trim(Trim(s, cs), cs) == Trim(s, cs)
  {
    TrimOfTrimmed(Trim(s, cs), cs);
  }

  /** A slice s[k..k + n] with only characters of cs around it, and none at its own ends, is what trim keeps. */
  lemma {:induction false} TrimUnique(s: string, cs: set<char>, k: nat, n: nat)
    requires k + n <= |s|
    requires forall i :: 0 <= i < k ==> s[i] in cs
    requires forall i :: k + n <= i < |s| ==> s[i] in cs
    requires IsTrimmed(s[k..k + n], cs)
    ensures Trim(s, cs) == s[k..k + n]
    decreases |s|
  {
    if n == 0 {
      forall i | 0 <= i < |s|
        ensures s[i] in cs
      {
        if i >= k {
          assert k + n <= i;
        }
      }
      TrimAllCut(s, cs);
    } else if s[0] in cs {
      assert s[k..k + n][0] == s[k];
      assert s[1..][k - 1..k - 1 + n] == s[k..k + n];
      TrimUnique(s[1..], cs, k - 1, n);
    } else if s[|s| - 1] in cs {
      var t := s[..|s| - 1];
      assert s[k..k + n][n - 1] == s[k + n - 1];
      assert t[k..k + n] == s[k..k + n];
      TrimUnique(t, cs, k, n);
    } else {
      assert s[k..k + n][0] == s[k] && s[k..k + n][n - 1] == s[k + n - 1];
      assert k == 0 && k + n == |s|;
    }
  }

  /** A string made only of characters of cs trims to nothing. */
  lemma {:induction false} TrimAllCut(s: string, cs: set<char>)
    requires forall i :: 0 <= i < |s| ==> s[i] in cs
    ensures Trim(s, cs) == []
    decreases |s|
  {
    if s != [] {
      assert s[0] in cs;
      assert forall i :: 0 <= i < |s| - 1 ==> s[1..][i] == s[i + 1];
      TrimAllCut(s[1..], cs);
    }
  }

  /** Characters of cs added at either end make no difference to trim. */
  lemma TrimPadded(pre: string, s: string, post: string, cs: set<char>)
    requires forall i :: 0 <= i < |pre| ==> pre[i] in cs
    requires forall i :: 0 <= i < |post| ==> post[i] in cs
    ensures Trim(pre + s + post, cs) == Trim(s, cs)
  {
    var k := TrimSlice(s, cs);
    var n := |Trim(s, cs)|;
    var t := pre + s + post;
    assert t[|pre| + k..|pre| + k + n] == s[k..k + n];
    forall i | 0 <= i < |pre| + k
      ensures t[i] in cs
    {
      if i >= |pre| {
        assert t[i] == s[i - |pre|];
      }
    }
    forall i | |pre| + k + n <= i < |t|
      ensures t[i] in cs
    {
      if i < |pre| + |s| {
        assert t[i] == s[i - |pre|];
      } else {
        assert t[i] == post[i - |pre| - |s|];
      }
    }
    TrimUnique(t, cs, |pre| + k, n);
  }

  /** trim(p . '/' . c, '/') for two already-trimmed, non-empty paths is p/c. */
  lemma TrimJoin(p: string, c: string)
    requires p != [] && c != []
    requires IsTrimmed(p, {'/'}) && IsTrimmed(c, {'/'})
    ensures Trim(p + "/" + c, {'/'}) == p + "/" + c
  {
    var s := p + "/" + c;
    assert s[0] == p[0] && s[|s| - 1] == c[|c| - 1];
    TrimOfTrimmed(s, {'/'});
  }

  /** trim('' . '/' . c, '/') for an already-trimmed c is c itself. */
  lemma TrimJoinEmptyParent(c: string)
    requires IsTrimmed(c, {'/'})
    ensures Trim("" + "/" + c, {'/'}) == c
  {
    assert ("" + "/" + c)[1..] == c;
    TrimOfTrimmed(c, {'/'});
  }

  /** join($sep, $parts) (implode). */
  function Join(sep: string, parts: seq<string>): string
    decreases |parts|
  {
    if parts == [] then ""
    else if |parts| == 1 then parts[0]
    else parts[0] + sep + Join(sep, parts[1..])
  }

  /** Joining one more part appends the separator and that part. */
  lemma {:induction false} JoinAppend(sep: string, parts: seq<string>, x: string)
    requires parts != []
    ensures Join(sep, parts + [x]) == Join(sep, parts) + sep + x
    decreases |parts|
  {
    if |parts| == 1 {
      assert parts + [x] == [parts[0], x];
    } else {
      assert (parts + [x])[1..] == parts[1..] + [x];
      JoinAppend(sep, parts[1..], x);
    }
  }

  /** explode($c, $s) on a one-character separator. */
  function Split(s: string, c: char): (r: seq<string>)
    ensures |r| >= 1
    decreases |s|
  {
    if s == [] then [""]
    else
      var rest := Split(s[1..], c);
      if s[0] == c then [""] + rest else [[s[0]] + rest[0]] + rest[1..]
  }

  /** Splitting a part that holds no separator yields just that part. */
  lemma {:induction false} SplitPlain(s: string, c: char)
    requires c !in s
    ensures Split(s, c) == [s]
    decreases |s|
  {
    if s != [] {
      SplitPlain(s[1..], c);
      assert [s[0]] + s[1..] == s;
    }
  }

  /** Splitting x + c + rest separates x from the parts of rest. */
  lemma {:induction false} SplitAt(x: string, c: char, rest: string)
    requires c !in x
    ensures Split(x + [c] + rest, c) == [x] + Split(rest, c)
    decreases |x|
  {
    if x == [] {
      assert x + [c] + rest == [c] + rest;
      assert ([c] + rest)[1..] == rest;
    } else {
      assert (x + [c] + rest)[0] == x[0];
      assert (x + [c] + rest)[1..] == x[1..] + [c] + rest;
      SplitAt(x[1..], c, rest);
      assert [x[0]] + x[1..] == x;
    }
  }

  /** join with a one-character separator is undone by explode, when no part holds the separator. */
  lemma {:induction false} SplitJoin(parts: seq<string>, c: char)
    requires parts != []
    requires forall i :: 0 <= i < |parts| ==> c !in parts[i]
    ensures Split(Join([c], parts), c) == parts
    decreases |parts|
  {
    if |parts| == 1 {
      SplitPlain(parts[0], c);
    } else {
      var rest := Join([c], parts[1..]);
      assert Join([c], parts) == parts[0] + [c] + rest;
      assert Split(rest, c) == parts[1..] by {
        SplitJoin(parts[1..], c);
      }
      assert Split(parts[0] + [c] + rest, c) == [parts[0]] + Split(rest, c) by {
        SplitAt(parts[0], c, rest);
      }
    }
  }

  /**
   * PHP's array union `$left + $right`: every key of either side, and the
   * LEFT operand's value wherever both sides hold a key.
   */
  function ArrayUnion<K, V>(left: map<K, V>, right: map<K, V>): (u: map<K, V>)
    ensures u.Keys == left.Keys + right.Keys
    ensures forall k :: k in left ==> u[k] == left[k]
    ensures forall k :: k in right && k !in left ==> u[k] == right[k]
  {
    right + left
  }

  /** strtoupper on one character (ASCII letters only, as PHP 8 does). */
  function UpperChar(c: char): char {
    if 'a' <= c <= 'z' then (c as int - 32) as char else c
  }

  /** strtoupper($s). */
  function ToUpper(s: string): string {
    seq(|s|, i requires 0 <= i < |s| => UpperChar(s[i]))
  }

  /**
   * The length of the longest key of pairs that is a non-empty prefix of s,
   * among the lengths n, n - 1, ..., 1; 0 when there is none.
   */
  function LongestKey(s: string, pairs: map<string, string>, n: nat): (l: nat)
    requires n <= |s|
    ensures l <= n
    ensures l > 0 ==> s[..l] in pairs
    ensures forall m :: l < m <= n ==> s[..m] !in pairs
    decreases n
  {
    if n == 0 then 0 else if s[..n] in pairs then n else LongestKey(s, pairs, n - 1)
  }

  /**
   * strtr($s, $pairs): a single left-to-right pass that, at each position,
   * replaces the longest key found there and resumes after it, so replaced
   * text is never scanned again; the empty key is never used.
   */
  function Strtr(s: string, pairs: map<string, string>): string
    decreases |s|
  {
    if s == [] then []
    else
      var l := LongestKey(s, pairs, |s|);
      if l == 0 then [s[0]] + Strtr(s[1..], pairs) else pairs[s[..l]] + Strtr(s[l..], pairs)
  }

  /** No key can start at a character that begins no key, so strtr copies it. */
  lemma NoKeyAt(s: string, pairs: map<string, string>)
    requires s != []
    requires forall k :: k in pairs && k != [] ==> k[0] != s[0]
    ensures Strtr(s, pairs) == [s[0]] + Strtr(s[1..], pairs)
  {
    forall m | 0 < m <= |s|
      ensures s[..m] !in pairs
    {
      assert s[..m][0] == s[0];
    }
  }

  /** strtr leaves alone a string in which no key's first character occurs. */
  lemma {:induction false} StrtrUntouched(s: string, pairs: map<string, string>)
    requires forall k :: k in pairs && k != [] ==> k[0] !in s
    ensures Strtr(s, pairs) == s
    decreases |s|
  {
    if s != [] {
      NoKeyAt(s, pairs);
      StrtrUntouched(s[1..], pairs);
    }
  }
}
