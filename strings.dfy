/** The pieces of Go's `strings`, `bytes`, `fmt` ("%d") and `path/filepath`
    that the explorer, compose and accessor code calls, with the facts the
    rest of the model needs about them. */
module Strings {

  /** strings.HasPrefix */
  predicate HasPrefix(s: string, p: string) {
    |p| <= |s| && s[..|p|] == p
  }

  /** strings.HasSuffix */
  predicate HasSuffix(s: string, p: string) {
    |p| <= |s| && s[|s| - |p|..] == p
  }

  /** strings.Contains / bytes.Contains: `t` occurs somewhere in `s`. */
  predicate Contains(s: string, t: string)
    decreases |s|
  {
    HasPrefix(s, t) || (|s| > 0 && Contains(s[1..], t))
  }

  /** An occurrence at any position makes `Contains` true. */
  lemma {:induction false} ContainsAt(s: string, t: string, i: nat)
    requires i <= |s| && HasPrefix(s[i..], t)
    ensures Contains(s, t)
    decreases i
  {
    if i > 0 {
      assert s[1..][i - 1..] == s[i..];
      ContainsAt(s[1..], t, i - 1);
    }
  }

  /** The index of the first `c` in `s` (strings.Index with a one-character needle). */
  function IndexOf(s: string, c: char): (i: nat)
    requires c in s
    ensures i < |s| && s[i] == c && c !in s[..i]
  {
    if s[0] == c then 0
    else
      var j := IndexOf(s[1..], c);
      assert s[..j + 1] == [s[0]] + s[1..][..j];
      j + 1
  }

  /** The first `c` right after a `c`-free prefix is found where it was put. */
  lemma IndexOfAfterFree(a: string, c: char, b: string)
    requires c !in a
    ensures c in a + [c] + b && IndexOf(a + [c] + b, c) == |a|
  {
    var s := a + [c] + b;
    assert s[|a|] == c;
    assert s[..|a|] == a;
  }

  /** strings.Split with a one-character separator. */
  function Split(s: string, sep: char): (parts: seq<string>)
    ensures |parts| >= 1
    ensures forall k :: 0 <= k < |parts| ==> sep !in parts[k]
    decreases |s|
  {
    if sep !in s then [s]
    else
      var i := IndexOf(s, sep);
      [s[..i]] + Split(s[i + 1..], sep)
  }

  /** The first piece of a split is a prefix of the text, ended by the
      separator or by the end of the text. */
  lemma SplitFirstField(t: string, sep: char)
    ensures var f := Split(t, sep)[0];
      |f| <= |t| && t[..|f|] == f && (|f| == |t| || t[|f|] == sep)
  {
    if sep in t {
      var j := IndexOf(t, sep);
      assert Split(t, sep)[0] == t[..j];
    }
  }

  /** One step of a split at the first separator. */
  lemma SplitStep(s: string, sep: char)
    requires sep in s
    ensures Split(s, sep) == [s[..IndexOf(s, sep)]] + Split(s[IndexOf(s, sep) + 1..], sep)
  {
  }

  /** A separator at `i` followed by the first piece of what comes after
      it: together with the text before it, a prefix of `s`, ended by a
      separator or by the end of `s`. */
  lemma SeparatedField(s: string, i: nat, sep: char)
    requires i < |s| && s[i] == sep
    ensures var f := Split(s[i + 1..], sep)[0];
      HasPrefix(s, s[..i] + [sep] + f) && (i + 1 + |f| == |s| || s[i + 1 + |f|] == sep)
  {
    var rest := s[i + 1..];
    var f := Split(rest, sep)[0];
    SplitFirstField(rest, sep);
    assert s[..i + 1 + |f|] == s[..i] + [sep] + rest[..|f|];
  }

  /** With a separator present, the first two pieces are the text before
      it and the text up to the next separator (or the end). */
  lemma SplitHead(s: string, sep: char)
    requires sep in s
    ensures
      var parts := Split(s, sep);
      && |parts| >= 2 && parts[0] == s[..IndexOf(s, sep)]
      && HasPrefix(s, parts[0] + [sep] + parts[1])
      && (|parts[0]| + 1 + |parts[1]| == |s| || s[|parts[0]| + 1 + |parts[1]|] == sep)
  {
    var i := IndexOf(s, sep);
    SplitStep(s, sep);
    SeparatedField(s, i, sep);
  }

  /** strings.Join */
  function Join(parts: seq<string>, sep: string): string {
    if |parts| == 0 then ""
    else if |parts| == 1 then parts[0]
    else parts[0] + sep + Join(parts[1..], sep)
  }

  /** Joining the pieces of a split gives back the original string. */
  lemma {:induction false} JoinSplit(s: string, sep: char)
    ensures Join(Split(s, sep), [sep]) == s
    decreases |s|
  {
    if sep in s {
      var i := IndexOf(s, sep);
      var rest := Split(s[i + 1..], sep);
      JoinSplit(s[i + 1..], sep);
      assert Split(s, sep) == [s[..i]] + rest;
      assert ([s[..i]] + rest)[1..] == rest;
      assert s == s[..i] + [sep] + s[i + 1..];
    }
  }

  /** Splitting a join of separator-free pieces gives back the pieces. */
  lemma {:induction false} SplitJoin(parts: seq<string>, sep: char)
    requires |parts| >= 1
    requires forall k :: 0 <= k < |parts| ==> sep !in parts[k]
    ensures Split(Join(parts, [sep]), sep) == parts
    decreases |parts|
  {
    if |parts| > 1 {
      var first := parts[0];
      var rest := Join(parts[1..], [sep]);
      var s := first + [sep] + rest;
      assert Join(parts, [sep]) == s;
      IndexOfAfterFree(first, sep, rest);
      assert s[..|first|] == first;
      assert s[|first| + 1..] == rest;
      calc {
        Split(s, sep);
        [s[..|first|]] + Split(s[|first| + 1..], sep);
        [first] + Split(rest, sep);
        { SplitJoin(parts[1..], sep); }
        [first] + parts[1..];
        parts;
      }
    }
  }

  /** bytes.Replace(s, pat, rep, -1) for a non-empty pattern: every
      occurrence, leftmost first, non-overlapping. */
  function ReplaceAll(s: string, pat: string, rep: string): string
    requires pat != ""
    decreases |s|
  {
    if s == "" then ""
    else if HasPrefix(s, pat) then rep + ReplaceAll(s[|pat|..], pat, rep)
    else [s[0]] + ReplaceAll(s[1..], pat, rep)
  }

  /** Text without the pattern is left alone. */
  lemma {:induction false} ReplaceAllAbsent(s: string, pat: string, rep: string)
    requires pat != "" && !Contains(s, pat)
    ensures ReplaceAll(s, pat, rep) == s
    decreases |s|
  {
    if s != "" {
      ReplaceAllAbsent(s[1..], pat, rep);
    }
  }

  /** How a prefix test splits over a first character. */
  lemma PrefixOfCons(c: char, t: string, w: string)
    requires w != ""
    ensures HasPrefix([c] + t, w) <==> c == w[0] && HasPrefix(t, w[1..])
  {
    if c == w[0] && HasPrefix(t, w[1..]) {
      assert ([c] + t)[..|w|] == [c] + t[..|w| - 1];
      assert w == [w[0]] + w[1..];
    }
    if HasPrefix([c] + t, w) {
      assert t[..|w| - 1] == ([c] + t)[1..|w|];
    }
  }

  /** When the replacement starts with the pattern, text that the output
      starts with and that avoids the pattern's first character was already
      there in the input. */
  lemma {:induction false} ReplaceAllKeepsPrefix(s: string, pat: string, rep: string, w: string)
    requires pat != "" && HasPrefix(rep, pat)
    requires pat[0] !in w
    ensures HasPrefix(ReplaceAll(s, pat, rep), w) ==> HasPrefix(s, w)
    decreases |s|
  {
    if w != "" && s != "" {
      var r := ReplaceAll(s, pat, rep);
      if HasPrefix(s, pat) {
        assert r[0] == pat[0];
        assert w[0] in w;
      } else {
        var t := ReplaceAll(s[1..], pat, rep);
        assert r == [s[0]] + t;
        PrefixOfCons(s[0], t, w);
        assert forall k :: 0 <= k < |w| - 1 ==> w[1..][k] == w[k + 1];
        ReplaceAllKeepsPrefix(s[1..], pat, rep, w[1..]);
        PrefixOfCons(s[0], s[1..], w);
        assert [s[0]] + s[1..] == s;
      }
    }
  }

  /** When the replacement starts with the pattern and the pattern's first
      character occurs nowhere else in pattern or replacement, every
      occurrence of the pattern in the output is a complete replacement. */
  lemma {:induction false} ReplaceAllMarksEveryOccurrence(s: string, pat: string, rep: string, i: nat)
    requires pat != "" && HasPrefix(rep, pat)
    requires pat[0] !in pat[1..] && pat[0] !in rep[1..]
    requires i <= |ReplaceAll(s, pat, rep)|
    ensures HasPrefix(ReplaceAll(s, pat, rep)[i..], pat) ==> HasPrefix(ReplaceAll(s, pat, rep)[i..], rep)
    decreases |s|
  {
    var r := ReplaceAll(s, pat, rep);
    if s != "" {
      if HasPrefix(s, pat) {
        var t := ReplaceAll(s[|pat|..], pat, rep);
        assert r == rep + t;
        if i == 0 {
          assert r[..|rep|] == rep;
        } else if i < |rep| {
          assert r[i..][0] == rep[i] == rep[1..][i - 1];
        } else {
          assert r[i..] == t[i - |rep|..];
          ReplaceAllMarksEveryOccurrence(s[|pat|..], pat, rep, i - |rep|);
        }
      } else {
        var t := ReplaceAll(s[1..], pat, rep);
        assert r == [s[0]] + t;
        if i == 0 {
          PrefixOfCons(s[0], t, pat);
          ReplaceAllKeepsPrefix(s[1..], pat, rep, pat[1..]);
          PrefixOfCons(s[0], s[1..], pat);
          assert [s[0]] + s[1..] == s;
        } else {
          assert r[i..] == t[i - 1..];
          ReplaceAllMarksEveryOccurrence(s[1..], pat, rep, i - 1);
        }
      }
    }
  }

  /** strings.TrimSuffix */
  function TrimSuffix(s: string, suffix: string): (r: string)
    ensures HasSuffix(s, suffix) ==> r + suffix == s
    ensures !HasSuffix(s, suffix) ==> r == s
  {
    if HasSuffix(s, suffix) then s[..|s| - |suffix|] else s
  }

  /** The path with every trailing '/' removed. */
  function TrimTrailingSlashes(p: string): (r: string)
    ensures r == "" || r[|r| - 1] != '/'
    ensures HasPrefix(p, r)
    decreases |p|
  {
    if p != "" && p[|p| - 1] == '/' then TrimTrailingSlashes(p[..|p| - 1]) else p
  }

  /** The text after the last '/' (all of `p` when it has none). */
  function AfterLastSlash(p: string): (r: string)
    ensures '/' !in r && HasSuffix(p, r)
    decreases |p|
  {
    if p == "" || p[|p| - 1] == '/' then ""
    else
      var r := AfterLastSlash(p[..|p| - 1]) + [p[|p| - 1]];
      assert p == p[..|p| - 1] + [p[|p| - 1]];
      r
  }

  /** filepath.Base on a '/'-separated system. */
  function Base(p: string): (r: string)
    ensures r != ""
    ensures r == "." || r == "/" || '/' !in r
  {
    if p == "" then "."
    else
      var b := AfterLastSlash(TrimTrailingSlashes(p));
      if b == "" then "/" else b
  }

  /** The base of `dir/name` is `name`, whatever `dir` is. */
  lemma BaseOfChild(dir: string, name: string)
    requires name != "" && '/' !in name
    ensures Base(dir + "/" + name) == name
  {
    var p := dir + "/" + name;
    assert TrimTrailingSlashes(p) == p by {
      assert p[|p| - 1] == name[|name| - 1];
    }
    AfterLastSlashOfChild(dir, name);
  }

  lemma {:induction false} AfterLastSlashOfChild(dir: string, name: string)
    requires '/' !in name
    ensures AfterLastSlash(dir + "/" + name) == name
    decreases |name|
  {
    var p := dir + "/" + name;
    if name == "" {
      assert p[|p| - 1] == '/';
    } else {
      var init := name[..|name| - 1];
      assert p[..|p| - 1] == dir + "/" + init;
      assert name[|name| - 1] in name;
      AfterLastSlashOfChild(dir, init);
      assert name == init + [name[|name| - 1]];
    }
  }

  /** filepath.Join of two non-empty elements, without the lexical cleaning
      that filepath.Join applies afterwards. */
  function JoinPath(dir: string, name: string): (r: string)
    ensures HasPrefix(r, dir) && HasSuffix(r, name)
  {
    var r := dir + "/" + name;
    assert r[..|dir|] == dir;
    assert r[|r| - |name|..] == name;
    r
  }

  /** The character of a decimal digit. */
  function DigitChar(d: nat): (c: char)
    requires d < 10
    ensures '0' <= c <= '9' && c as int - '0' as int == d
  {
    "0123456789"[d]
  }

  predicate AllDigits(s: string) {
    forall k :: 0 <= k < |s| ==> '0' <= s[k] <= '9'
  }

  /** fmt's "%d" of a non-negative number: no leading zeros. */
  function NatToDecimal(n: nat): (s: string)
    ensures s != "" && AllDigits(s)
    decreases n
  {
    if n < 10 then [DigitChar(n)]
    else NatToDecimal(n / 10) + [DigitChar(n % 10)]
  }

  /** fmt's "%d" of any integer. */
  function IntToDecimal(i: int): string {
    if i < 0 then "-" + NatToDecimal(-i) else NatToDecimal(i)
  }

  /** The number a string of decimal digits denotes. */
  function DecimalValue(s: string): nat
    requires AllDigits(s)
  {
    if s == "" then 0
    else 10 * DecimalValue(s[..|s| - 1]) + (s[|s| - 1] as int - '0' as int)
  }

  /** Reading back a formatted number gives the number. */
  lemma {:induction false} DecimalRoundTrip(n: nat)
    ensures DecimalValue(NatToDecimal(n)) == n
    decreases n
  {
    if n >= 10 {
      var s := NatToDecimal(n);
      assert s[..|s| - 1] == NatToDecimal(n / 10);
      DecimalRoundTrip(n / 10);
    }
  }

  /** The sign and the digits of a printed integer. */
  lemma IntToDecimalParts(i: int)
    ensures IntToDecimal(i) != ""
    ensures (i < 0) == (IntToDecimal(i)[0] == '-')
    ensures NatToDecimal(if i < 0 then -i else i)
         == if i < 0 then IntToDecimal(i)[1..] else IntToDecimal(i)
  {
    var s := IntToDecimal(i);
    if i < 0 {
      assert s[1..] == NatToDecimal(-i);
    } else {
      assert '0' <= s[0];
    }
  }

  /** Different integers are printed differently. */
  lemma IntToDecimalInjective(a: int, b: int)
    requires IntToDecimal(a) == IntToDecimal(b)
    ensures a == b
  {
    IntToDecimalParts(a);
    IntToDecimalParts(b);
    DecimalRoundTrip(if a < 0 then -a else a);
    DecimalRoundTrip(if b < 0 then -b else b);
  }
}
