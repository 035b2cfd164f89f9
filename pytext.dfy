/**
 * The Python string built-ins the detector relies on: `str.isspace` as used by
 * `strip()` and by `split()` without an argument, `split(sep)` with a one-character
 * separator, and the slices `s[:n]` and `s[-n:]`. `" ".join` and `sep.join`, which
 * the detector does not call, are here only to state that the splits undo them.
 */
module PyText {

  /** Python's `str.isspace` for one character (the set `strip()` and `split()` use). */
  predicate IsSpace(c: char) {
    var n := c as int;
    n == 0x20 || (0x09 <= n <= 0x0D) || (0x1C <= n <= 0x1F) || n == 0x85 || n == 0xA0
    || n == 0x1680 || (0x2000 <= n <= 0x200A) || n == 0x2028 || n == 0x2029
    || n == 0x202F || n == 0x205F || n == 0x3000
  }

  predicate AllSpace(s: string) {
    forall i :: 0 <= i < |s| ==> IsSpace(s[i])
  }

  /** A token of `split()`: non-empty and free of whitespace. */
  predicate IsWord(w: string) {
    w != [] && forall i :: 0 <= i < |w| ==> !IsSpace(w[i])
  }

  // ---------------------------------------------------------------------------
  // strip()
  // ---------------------------------------------------------------------------

  /** `s.lstrip()`: drop the leading whitespace. */
  function StripLeft(s: string): string {
    if s != [] && IsSpace(s[0]) then StripLeft(s[1..]) else s
  }

  /** `s.rstrip()`: drop the trailing whitespace. */
  function StripRight(s: string): string {
    if s != [] && IsSpace(s[|s| - 1]) then StripRight(s[..|s| - 1]) else s
  }

  /** `s.strip()`. */
  function Strip(s: string): string {
    StripRight(StripLeft(s))
  }

  /** `lstrip()` leaves the suffix of `s` after a run of whitespace, and that
      suffix does not start with whitespace. */
  lemma {:induction false} StripLeftShape(s: string)
    ensures var r := StripLeft(s);
      |r| <= |s| && r == s[|s| - |r|..] && AllSpace(s[..|s| - |r|])
      && (r != [] ==> !IsSpace(r[0]))
  {
    if s != [] && IsSpace(s[0]) {
      StripLeftShape(s[1..]);
      var r := StripLeft(s);
      var cut := s[..|s| - |r|];
      forall k | 0 <= k < |cut| ensures IsSpace(cut[k]) {
        if k > 0 { assert cut[k] == s[1..][..|s| - 1 - |r|][k - 1]; }
      }
    }
  }

  /** `rstrip()` leaves the prefix of `s` before a run of whitespace, and that
      prefix does not end with whitespace. */
  lemma {:induction false} StripRightShape(s: string)
    ensures var r := StripRight(s);
      |r| <= |s| && r == s[..|r|] && AllSpace(s[|r|..])
      && (r != [] ==> !IsSpace(r[|r| - 1]))
  {
    if s != [] && IsSpace(s[|s| - 1]) {
      var t := s[..|s| - 1];
      StripRightShape(t);
      var r := StripRight(s);
      assert r == t[..|r|];
      forall k | |r| <= k < |s| ensures IsSpace(s[k]) {
        if k < |s| - 1 { assert s[k] == t[|r|..][k - |r|]; }
      }
    }
  }

  /** `strip()` is empty exactly when `s` is all whitespace; otherwise it starts
      and ends with a non-whitespace character and is what lies between the two
      whitespace runs cut off `s`'s ends. */
  lemma StripShape(s: string)
    ensures var r := Strip(s);
      (r == [] <==> AllSpace(s))
      && (r != [] ==> !IsSpace(r[0]) && !IsSpace(r[|r| - 1]))
      && exists i :: 0 <= i <= |s| - |r| && s[i..i + |r|] == r
                     && AllSpace(s[..i]) && AllSpace(s[i + |r|..])
  {
    var l := StripLeft(s);
    var r := StripRight(l);
    StripLeftShape(s);
    StripRightShape(l);
    if r != [] {
      assert r[0] == l[0];
    }
    var i := |s| - |l|;
    TrimmedMiddle(s, l, r, i);
    assert s[i..i + |r|] == r && AllSpace(s[..i]) && AllSpace(s[i + |r|..]);
  }

  /** Cutting a whitespace prefix off `s` and then a whitespace suffix off the rest
      leaves a middle part of `s`, empty only if `s` is all whitespace. */
  lemma TrimmedMiddle(s: string, l: string, r: string, i: nat)
    requires i <= |s| && l == s[i..] && |r| <= |l| && r == l[..|r|]
    requires AllSpace(s[..i]) && AllSpace(l[|r|..])
    requires r != [] ==> !IsSpace(r[0])
    ensures s[i..i + |r|] == r && AllSpace(s[i + |r|..])
    ensures r == [] <==> AllSpace(s)
  {
    assert s[i + |r|..] == l[|r|..];
    if r == [] {
      forall k | 0 <= k < |s| ensures IsSpace(s[k]) {
        if k < i { assert s[k] == s[..i][k]; } else { assert s[k] == l[|r|..][k - i]; }
      }
    } else {
      assert s[i] == r[0];
    }
  }

  // ---------------------------------------------------------------------------
  // split() without an argument, and " ".join
  // ---------------------------------------------------------------------------

  /** Length of the leading run of non-whitespace characters of `s`. */
  function WordLen(s: string): (n: nat)
    ensures n <= |s|
    ensures forall i :: 0 <= i < n ==> !IsSpace(s[i])
    ensures n < |s| ==> IsSpace(s[n])
  {
    if s == [] || IsSpace(s[0]) then 0 else 1 + WordLen(s[1..])
  }

  /** `s.split()`: the maximal whitespace-free runs of `s`, in order. */
  function Words(s: string): (ws: seq<string>)
    ensures forall i :: 0 <= i < |ws| ==> IsWord(ws[i])
    decreases |s|
  {
    if s == [] then []
    else if IsSpace(s[0]) then Words(s[1..])
    else
      var n := WordLen(s);
      [s[..n]] + Words(s[n..])
  }

  /** `split()` skips a leading whitespace character. */
  lemma WordsSkipsSpace(s: string)
    requires s != [] && IsSpace(s[0])
    ensures Words(s) == Words(s[1..])
  {
  }

  /** `split()` ignores any run of leading whitespace. */
  lemma {:induction false} WordsAfterSpaces(pad: string, s: string)
    requires AllSpace(pad)
    ensures Words(pad + s) == Words(s)
    decreases |pad|
  {
    if pad != [] {
      assert IsSpace((pad + s)[0]);
      WordsSkipsSpace(pad + s);
      assert (pad + s)[1..] == pad[1..] + s;
      assert AllSpace(pad[1..]) by {
        forall k | 0 <= k < |pad[1..]| ensures IsSpace(pad[1..][k]) { assert pad[1..][k] == pad[k + 1]; }
      }
      WordsAfterSpaces(pad[1..], s);
    } else {
      assert pad + s == s;
    }
  }

  /** `" ".join(ws)`. */
  function JoinWords(ws: seq<string>): string {
    if ws == [] then []
    else if |ws| == 1 then ws[0]
    else ws[0] + " " + JoinWords(ws[1..])
  }

  /** `split()` finds no token exactly when the string is all whitespace, i.e.
      exactly when `strip()` returns the empty string. */
  lemma {:induction false} WordsEmptyIffBlank(s: string)
    ensures Words(s) == [] <==> AllSpace(s)
    ensures Words(s) == [] <==> Strip(s) == []
    decreases |s|
  {
    StripShape(s);
    if s != [] && IsSpace(s[0]) {
      WordsEmptyIffBlank(s[1..]);
      assert AllSpace(s) <==> AllSpace(s[1..]) by {
        if AllSpace(s[1..]) {
          forall k | 0 <= k < |s| ensures IsSpace(s[k]) { if k > 0 { assert s[k] == s[1..][k - 1]; } }
        }
      }
    }
  }

  /** The first token begins with the first non-whitespace character. */
  lemma {:induction false} FirstWordStartsAtStripLeft(s: string)
    requires Words(s) != []
    ensures StripLeft(s) != [] && Words(s)[0][0] == StripLeft(s)[0]
    decreases |s|
  {
    if IsSpace(s[0]) {
      FirstWordStartsAtStripLeft(s[1..]);
    }
  }

  lemma {:induction false} WordLenOfWord(w: string, rest: string)
    requires IsWord(w)
    requires rest == [] || IsSpace(rest[0])
    ensures WordLen(w + rest) == |w|
    decreases |w|
  {
    if |w| > 1 {
      assert (w + rest)[1..] == w[1..] + rest;
      WordLenOfWord(w[1..], rest);
    } else {
      assert (w + rest)[1..] == rest;
    }
  }

  /** A word followed by whitespace (or nothing) is split off as one token. */
  lemma WordsOfWordThen(w: string, rest: string)
    requires IsWord(w)
    requires rest == [] || IsSpace(rest[0])
    ensures Words(w + rest) == [w] + Words(rest)
  {
    WordLenOfWord(w, rest);
    var s := w + rest;
    assert s[..|w|] == w && s[|w|..] == rest;
  }

  /** `split()` undoes `" ".join` on a list of tokens. */
  lemma {:induction false} WordsOfJoin(ws: seq<string>)
    requires forall i :: 0 <= i < |ws| ==> IsWord(ws[i])
    ensures Words(JoinWords(ws)) == ws
  {
    if |ws| == 1 {
      WordsOfWordThen(ws[0], []);
      assert ws[0] + [] == ws[0];
    } else if |ws| > 1 {
      var tail := JoinWords(ws[1..]);
      assert ws[0] + " " + tail == ws[0] + (" " + tail);
      WordsOfWordThen(ws[0], " " + tail);
      assert (" " + tail)[1..] == tail;
      WordsOfJoin(ws[1..]);
      assert [ws[0]] + ws[1..] == ws;
    }
  }

  // ---------------------------------------------------------------------------
  // split(sep) with a one-character separator
  // ---------------------------------------------------------------------------

  /** `s.split(sep)`: always at least one part, and no part contains `sep`. */
  function SplitOn(s: string, sep: char): (parts: seq<string>)
    ensures |parts| >= 1
    ensures forall i :: 0 <= i < |parts| ==> sep !in parts[i]
    ensures sep in s <==> |parts| > 1
  {
    if s == [] then [[]]
    else
      var rest := SplitOn(s[1..], sep);
      if s[0] == sep then [[]] + rest
      else [[s[0]] + rest[0]] + rest[1..]
  }

  /** Index of the first occurrence of `c` in `s` (`s.index(c)`). */
  function FirstIndex(s: string, c: char): (k: nat)
    requires c in s
    ensures k < |s| && s[k] == c && c !in s[..k]
  {
    if s[0] == c then 0 else 1 + FirstIndex(s[1..], c)
  }

  /** When `c` is at index `i` and not before it, `i` is its first index. */
  lemma FirstIndexAfterPrefix(s: string, i: int, c: char)
    requires 0 <= i < |s| && s[i] == c && c !in s[..i]
    ensures c in s && FirstIndex(s, c) == i
  {
    assert s[i] in s;
  }

  /** The first part ends at the first separator; the rest is the split of what
      follows it. */
  lemma {:induction false} SplitOnFirst(s: string, sep: char)
    requires sep in s
    ensures var k := FirstIndex(s, sep);
      SplitOn(s, sep) == [s[..k]] + SplitOn(s[k + 1..], sep)
  {
    if s[0] != sep {
      var t := s[1..];
      var k' := FirstIndex(t, sep);
      SplitOnFirst(t, sep);
      assert t[k' + 1..] == s[k' + 2..];
      assert [s[0]] + t[..k'] == s[..k' + 1];
    }
  }

  /** The first part of a split is everything before the first separator. */
  lemma SplitOnHead(s: string, sep: char)
    ensures SplitOn(s, sep)[0] == if sep in s then s[..FirstIndex(s, sep)] else s
  {
    if sep in s {
      SplitOnFirst(s, sep);
    } else {
      SplitOnAbsent(s, sep);
    }
  }

  /** `sep.join(parts)`. */
  function JoinOn(parts: seq<string>, sep: char): string
    requires |parts| >= 1
  {
    if |parts| == 1 then parts[0] else parts[0] + [sep] + JoinOn(parts[1..], sep)
  }

  /** Joining the parts with the separator gives the original string back. */
  lemma {:induction false} JoinSplitOn(s: string, sep: char)
    ensures JoinOn(SplitOn(s, sep), sep) == s
  {
    if s != [] {
      var rest := SplitOn(s[1..], sep);
      JoinSplitOn(s[1..], sep);
      if s[0] == sep {
        assert [[]] + rest == SplitOn(s, sep);
        assert ([[]] + rest)[1..] == rest;
      } else {
        var parts := [[s[0]] + rest[0]] + rest[1..];
        if |rest| > 1 {
          assert parts[1..] == rest[1..];
        }
      }
    }
  }

  /** A string without the separator splits into itself alone. */
  lemma {:induction false} SplitOnAbsent(s: string, sep: char)
    requires sep !in s
    ensures SplitOn(s, sep) == [s]
  {
    if s != [] {
      SplitOnAbsent(s[1..], sep);
      assert [s[0]] + s[1..] == s;
    }
  }

  /** With exactly one separator the split gives the two sides. */
  lemma {:induction false} SplitOnOnce(a: string, b: string, sep: char)
    requires sep !in a && sep !in b
    ensures SplitOn(a + [sep] + b, sep) == [a, b]
  {
    var s := a + [sep] + b;
    if a == [] {
      assert s[1..] == b;
      SplitOnAbsent(b, sep);
    } else {
      assert s[1..] == a[1..] + [sep] + b;
      SplitOnOnce(a[1..], b, sep);
      assert [a[0]] + a[1..] == a;
    }
  }

  // ---------------------------------------------------------------------------
  // Slices
  // ---------------------------------------------------------------------------

  /** `s[:n]`: at most the first `n` characters. */
  function Prefix(s: string, n: nat): (r: string)
    ensures |r| == if |s| < n then |s| else n
    ensures r == s[..|r|]
  {
    if |s| <= n then s else s[..n]
  }

  /** `s[-n:]` for a positive `n`: at most the last `n` characters. */
  function Suffix(s: string, n: nat): (r: string)
    requires n > 0
    ensures |r| == if |s| < n then |s| else n
    ensures r == s[|s| - |r|..]
  {
    if |s| <= n then s else s[|s| - n..]
  }
}
