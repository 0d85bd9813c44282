/** The handful of Python `str` operations the application relies on:
    `strip()`, `strip(chars)`, `split()`, `sep.join(parts)`, `lower()`,
    `startswith`, `find`/`rfind` of one character, and `c * n`. */
module PyStr {
  import opened Seqs

  /** The characters Python's `str.isspace()` accepts ('\t' to '\r' are the
      five ASCII control spaces); `strip()` and `split()` without arguments
      treat exactly these as whitespace. */
  predicate IsSpace(c: char)
  {
    c == ' ' || '\t' <= c <= '\r' || '\U{1C}' <= c <= '\U{1F}' || c == '\U{85}' || c == '\U{A0}'
    || c == '\U{1680}' || '\U{2000}' <= c <= '\U{200A}' || c == '\U{2028}' || c == '\U{2029}'
    || c == '\U{202F}' || c == '\U{205F}' || c == '\U{3000}'
  }

  /** The same characters as a set, for `StripChars`. */
  const Whitespace: iset<char> := iset c | IsSpace(c)

  /** The index where `s.strip(chars)` starts: the first index at or after
      `i` whose character is not in `chars`, or `|s|`. */
  function StripStart(s: string, chars: iset<char>, i: nat := 0): (a: nat)
    requires i <= |s|
    ensures i <= a <= |s|
    decreases |s| - i
  {
    if i == |s| || s[i] !in chars then i else StripStart(s, chars, i + 1)
  }

  /** The index where `s.strip(chars)` ends: the last position at or before
      `j`, and not before `lo`, that follows a character not in `chars`. */
  function StripEnd(s: string, chars: iset<char>, lo: nat, j: nat): (b: nat)
    requires lo <= j <= |s|
    ensures lo <= b <= j
  {
    if j == lo || s[j - 1] !in chars then j else StripEnd(s, chars, lo, j - 1)
  }

  /** StripStart skips exactly the characters of `chars`. */
  lemma {:induction false} StripStartSkips(s: string, chars: iset<char>, i: nat)
    requires i <= |s|
    ensures var a := StripStart(s, chars, i);
      (forall k :: i <= k < a ==> s[k] in chars) && (a < |s| ==> s[a] !in chars)
    decreases |s| - i
  {
    if i < |s| && s[i] in chars {
      StripStartSkips(s, chars, i + 1);
    }
  }

  /** StripEnd skips exactly the characters of `chars`. */
  lemma {:induction false} StripEndSkips(s: string, chars: iset<char>, lo: nat, j: nat)
    requires lo <= j <= |s|
    ensures var b := StripEnd(s, chars, lo, j);
      (forall k :: b <= k < j ==> s[k] in chars) && (b > lo ==> s[b - 1] !in chars)
  {
    if j > lo && s[j - 1] in chars {
      StripEndSkips(s, chars, lo, j - 1);
    }
  }

  /** Python's `s.strip(chars)`: `s` without its longest prefix and longest
      suffix made of characters in `chars`. */
  function StripChars(s: string, chars: iset<char>): string
  {
    var a := StripStart(s, chars);
    s[a..StripEnd(s, chars, a, |s|)]
  }

  /** What `strip(chars)` removes and keeps: the result is a slice of `s`,
      everything cut from either end is in `chars`, and the result neither
      starts nor ends with a character of `chars`. */
  lemma StripCharsSpec(s: string, chars: iset<char>)
    ensures var r := StripChars(s, chars);
      exists a, b :: 0 <= a <= b <= |s| && r == s[a..b]
        && (forall k :: 0 <= k < a ==> s[k] in chars)
        && (forall k :: b <= k < |s| ==> s[k] in chars)
        && (r != [] ==> r[0] !in chars && r[|r| - 1] !in chars)
  {
    var a := StripStart(s, chars);
    var b := StripEnd(s, chars, a, |s|);
    StripStartSkips(s, chars, 0);
    StripEndSkips(s, chars, a, |s|);
    assert StripChars(s, chars) == s[a..b];
  }

  /** Python's `s.strip()`. */
  function Strip(s: string): string
  {
    StripChars(s, Whitespace)
  }

  /** A string with no character of `chars` at either end is left unchanged. */
  lemma StripCharsNoop(s: string, chars: iset<char>)
    requires s == [] || (s[0] !in chars && s[|s| - 1] !in chars)
    ensures StripChars(s, chars) == s
  {
    if s != [] {
      assert StripStart(s, chars) == 0;
      assert StripEnd(s, chars, 0, |s|) == |s|;
    }
  }

  /** One character of `chars` on each side of `v` is all `strip(chars)`
      removes when `v` neither starts nor ends with one. */
  lemma StripOneEach(v: string, c: char, chars: iset<char>)
    requires c in chars && v != [] && v[0] !in chars && v[|v| - 1] !in chars
    ensures StripChars([c] + v + [c], chars) == v
  {
    var s := [c] + v + [c];
    assert StripStart(s, chars, 1) == 1;
    assert StripStart(s, chars) == 1;
    assert StripEnd(s, chars, 1, |s| - 1) == |s| - 1;
    assert StripEnd(s, chars, 1, |s|) == |s| - 1;
    assert s[1..|s| - 1] == v;
  }

  /** `strip` is idempotent. */
  lemma StripIdempotent(s: string)
    ensures Strip(Strip(s)) == Strip(s)
  {
    StripCharsSpec(s, Whitespace);
    StripCharsNoop(Strip(s), Whitespace);
  }

  /** `strip` introduces no character: one absent from `s` is absent from `strip(s)`. */
  lemma StripKeepsOut(s: string, c: char)
    requires c !in s
    ensures c !in Strip(s)
  {
    var a := StripStart(s, Whitespace);
    var r := Strip(s);
    assert forall k :: 0 <= k < |r| ==> r[k] == s[a + k];
  }

  /** A string is the text before index `i`, the character at `i`, and the text after it. */
  lemma SplitAround(s: string, i: nat)
    requires i < |s|
    ensures s == s[..i] + [s[i]] + s[i + 1..]
  {
  }

  /** Python's `c in s`. */
  predicate Contains(s: string, c: char)
  {
    c in s
  }

  /** Python's `s.find(c)` for a character that occurs: the first index. */
  function IndexOf(s: string, c: char): (i: nat)
    requires c in s
    ensures i < |s| && s[i] == c
    ensures forall k :: 0 <= k < i ==> s[k] != c
  {
    if s[0] == c then 0 else 1 + IndexOf(s[1..], c)
  }

  /** Python's `s.rfind(c)`: the last index of `c`, or -1 when it does not occur. */
  function LastIndexOf(s: string, c: char): (i: int)
    ensures -1 <= i < |s|
    ensures i >= 0 ==> s[i] == c
    ensures forall k :: i < k < |s| ==> s[k] != c
  {
    if s == [] then -1
    else if s[|s| - 1] == c then |s| - 1
    else LastIndexOf(s[..|s| - 1], c)
  }

  /** Python's `s.startswith(prefix)`. */
  predicate StartsWith(s: string, prefix: string)
  {
    |prefix| <= |s| && s[..|prefix|] == prefix
  }

  /** Python's `c.lower()` restricted to ASCII letters. */
  function LowerChar(c: char): char
  {
    if 'A' <= c <= 'Z' then (c as int + 32) as char else c
  }

  /** Python's `s.lower()` restricted to ASCII letters. */
  function Lower(s: string): (r: string)
    ensures |r| == |s|
    ensures forall k :: 0 <= k < |s| ==> r[k] == LowerChar(s[k])
  {
    seq(|s|, k requires 0 <= k < |s| => LowerChar(s[k]))
  }

  /** Python's `c * n` for a one-character string `c`. */
  function Repeat(c: char, n: nat): (r: string)
    ensures |r| == n
    ensures forall k :: 0 <= k < n ==> r[k] == c
  {
    seq(n, _ => c)
  }

  /** Python's `str(n)` for a natural number: its decimal digits, with no
      leading zero. */
  function NatToString(n: nat): (r: string)
    ensures r != [] && forall k :: 0 <= k < |r| ==> '0' <= r[k] <= '9'
    ensures n > 0 ==> r[0] != '0'
  {
    if n < 10 then [('0' as int + n) as char] else NatToString(n / 10) + [('0' as int + n % 10) as char]
  }

  /** The number a string of decimal digits denotes (`int(s)`). */
  function DigitsValue(s: string): int
  {
    if s == [] then 0 else 10 * DigitsValue(s[..|s| - 1]) + (s[|s| - 1] as int - '0' as int)
  }

  /** The digits `str(n)` produces denote `n`. */
  lemma {:induction false} NatToStringValue(n: nat)
    ensures DigitsValue(NatToString(n)) == n
    decreases n
  {
    if n >= 10 {
      NatToStringValue(n / 10);
      var s := NatToString(n / 10);
      var d := ('0' as int + n % 10) as char;
      assert (s + [d])[..|s|] == s;
    }
  }

  /** Python's `str(n)` for an integer. */
  function IntToString(n: int): string
  {
    if n < 0 then "-" + NatToString(-n) else NatToString(n)
  }

  /** Python's `sep.join(parts)`. */
  function Join(sep: string, parts: seq<string>): string
  {
    if |parts| == 0 then ""
    else if |parts| == 1 then parts[0]
    else parts[0] + sep + Join(sep, parts[1..])
  }

  /** Python's `"".join(parts)`. */
  function Concat(parts: seq<string>): string
  {
    Join("", parts)
  }

  /** A whitespace-free, non-empty word: what `split()` produces. */
  predicate IsToken(w: string)
  {
    w != [] && forall k :: 0 <= k < |w| ==> w[k] !in Whitespace
  }

  /** The length of the longest whitespace-free prefix of `s`. */
  function TokenLength(s: string): (n: nat)
    ensures n <= |s|
    ensures forall k :: 0 <= k < n ==> s[k] !in Whitespace
    ensures n < |s| ==> s[n] in Whitespace
  {
    if s == [] || s[0] in Whitespace then 0 else 1 + TokenLength(s[1..])
  }

  /** Python's `s.split()` without arguments: the maximal runs of
      non-whitespace characters, in order. */
  function Split(s: string): (r: seq<string>)
    ensures forall k :: 0 <= k < |r| ==> IsToken(r[k])
    decreases |s|
  {
    if s == [] then []
    else if s[0] in Whitespace then Split(s[1..])
    else
      var n := TokenLength(s);
      var word := s[..n];
      var rest := Split(s[n..]);
      assert forall k :: 1 <= k < |rest| + 1 ==> ([word] + rest)[k] == rest[k - 1];
      [word] + rest
  }

  /** A word stops at the first whitespace character, wherever the rest of
      the string continues. */
  lemma TokenLengthBeforeSpace(a: string, c: char, b: string)
    requires c in Whitespace
    ensures TokenLength(a + [c] + b) == TokenLength(a)
  {
    var s := a + [c] + b;
    assert s[|a|] == c;
    assert forall k :: 0 <= k < |a| ==> s[k] == a[k];
  }

  /** `split()` cuts at every whitespace character: the words of `a + c + b`
      are the words of `a` followed by those of `b`. */
  lemma {:induction false} SplitAtSpace(a: string, c: char, b: string)
    requires c in Whitespace
    ensures Split(a + [c] + b) == Split(a) + Split(b)
    decreases |a|
  {
    var s := a + [c] + b;
    if a == [] {
      assert s == [c] + b;
      assert s[1..] == b;
    } else if a[0] in Whitespace {
      assert s[0] == a[0];
      assert s[1..] == a[1..] + [c] + b;
      SplitAtSpace(a[1..], c, b);
    } else {
      assert s[0] == a[0];
      var n := TokenLength(a);
      TokenLengthBeforeSpace(a, c, b);
      assert s[..n] == a[..n];
      assert s[n..] == a[n..] + [c] + b;
      SplitAtSpace(a[n..], c, b);
      ConcatAssoc([a[..n]], Split(a[n..]), Split(b));
    }
  }

  /** A single word splits into itself. */
  lemma SplitWord(w: string)
    requires IsToken(w)
    ensures Split(w) == [w]
  {
    assert TokenLength(w) == |w|;
    assert w[..|w|] == w;
    assert w[|w|..] == [];
  }

  /** `split()` yields nothing exactly when `strip()` leaves nothing: a line
      that is blank after stripping has no first word, and any other line has one. */
  lemma {:induction false} SplitEmptyIffBlank(s: string)
    ensures Split(s) == [] <==> Strip(s) == []
  {
    if s == [] {
    } else if s[0] in Whitespace {
      SplitEmptyIffBlank(s[1..]);
      StripBlankTail(s);
    } else {
      assert StripStart(s, Whitespace) == 0;
      StripEndSkips(s, Whitespace, 0, |s|);
    }
  }

  lemma StripBlankTail(s: string)
    requires s != [] && s[0] in Whitespace
    ensures Strip(s) == [] <==> Strip(s[1..]) == []
  {
    var t := s[1..];
    var a := StripStart(s, Whitespace);
    var a' := StripStart(t, Whitespace);
    var b := StripEnd(s, Whitespace, a, |s|);
    var b' := StripEnd(t, Whitespace, a', |t|);
    StripStartSkips(s, Whitespace, 0);
    StripStartSkips(t, Whitespace, 0);
    StripEndSkips(s, Whitespace, a, |s|);
    StripEndSkips(t, Whitespace, a', |t|);
    if Strip(t) == [] {
      assert forall k :: 0 <= k < |t| ==> t[k] in Whitespace by {
        forall k | 0 <= k < |t| ensures t[k] in Whitespace {
          if k >= b' {
          } else {
            assert k < a';
          }
        }
      }
      assert forall k :: 0 <= k < |s| ==> s[k] in Whitespace by {
        forall k | 0 <= k < |s| ensures s[k] in Whitespace {
          if k > 0 { assert s[k] == t[k - 1]; }
        }
      }
      assert a == |s|;
    } else {
      assert t[a'] !in Whitespace;
      assert s[a' + 1] !in Whitespace;
      assert a <= a' + 1;
      assert a < |s|;
      assert b > a;
    }
  }

  lemma {:induction false} JoinHead(sep: string, parts: seq<string>)
    requires |parts| > 0 && parts[0] != []
    ensures Join(sep, parts) != [] && Join(sep, parts)[0] == parts[0][0]
  {
  }

  /** Joining tokens with single spaces and splitting again gives the tokens
      back: the prompt that `analyze` rebuilds from the words of a command line
      splits into exactly those words. */
  lemma {:induction false} SplitJoin(tokens: seq<string>)
    requires forall k :: 0 <= k < |tokens| ==> IsToken(tokens[k])
    ensures Split(Join(" ", tokens)) == tokens
  {
    if tokens == [] {
    } else {
      var a := tokens[0];
      var s := Join(" ", tokens);
      JoinHead(" ", tokens);
      if |tokens| == 1 {
        assert s == a;
        assert TokenLength(s) == |a|;
        assert s[..|a|] == a;
        assert s[|a|..] == [];
      } else {
        var rest := Join(" ", tokens[1..]);
        assert s == a + " " + rest;
        assert s[|a|] == ' ';
        assert TokenLength(s) == |a|;
        assert s[..|a|] == a;
        assert s[|a|..] == " " + rest;
        assert (" " + rest)[1..] == rest;
        assert Split(" " + rest) == Split(rest);
        SplitJoin(tokens[1..]);
      }
    }
  }
}
