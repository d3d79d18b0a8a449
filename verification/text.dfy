/** The handful of Python string operations the gateway relies on, written out
    over `seq<char>`: `strip`, `split(sep)`, `split()`, `' '.join`, `in`,
    `lower` (ASCII letters only), `replace(c, '')` and
    `encode('ascii', 'ignore')`. */
module Text {

  import opened Wrappers

  /** The characters Python's `str.isspace` accepts. */
  predicate IsSpace(c: char) {
    || c == ' '
    || ('\t' <= c <= '\r')
    || ('\U{1c}' <= c <= '\U{1f}')
    || c == '\U{85}' || c == '\U{a0}' || c == '\U{1680}'
    || ('\U{2000}' <= c <= '\U{200a}')
    || c == '\U{2028}' || c == '\U{2029}' || c == '\U{202f}' || c == '\U{205f}'
    || c == '\U{3000}'
  }

  predicate IsAscii(c: char) {
    (c as int) < 128
  }

  predicate NoSpace(s: string) {
    forall i :: 0 <= i < |s| ==> !IsSpace(s[i])
  }

  /** A word as `str.split()` produces it: non-empty, no whitespace. */
  predicate IsWord(w: string) {
    |w| > 0 && forall i :: 0 <= i < |w| ==> !IsSpace(w[i])
  }

  // ---------------------------------------------------------------------
  // strip

  /** `str.lstrip()`: the suffix left after dropping leading whitespace. */
  function TrimStart(s: string): (r: string)
    ensures |r| <= |s|
    ensures r == [] || !IsSpace(r[0])
    decreases |s|
  {
    if s != [] && IsSpace(s[0]) then TrimStart(s[1..]) else s
  }

  /** What `lstrip` keeps is a suffix of its input, and what it drops is
      whitespace. */
  lemma {:induction false} TrimStartSlice(s: string)
    ensures var r := TrimStart(s);
            && r == s[|s| - |r|..]
            && forall i :: 0 <= i < |s| - |r| ==> IsSpace(s[i])
    decreases |s|
  {
    if s != [] && IsSpace(s[0]) {
      TrimStartSlice(s[1..]);
      var r := TrimStart(s);
      assert s[1..][|s| - 1 - |r|..] == s[|s| - |r|..];
      forall i | 0 <= i < |s| - |r|
        ensures IsSpace(s[i])
      {
        if i > 0 {
          assert s[i] == s[1..][i - 1];
        }
      }
    }
  }

  /** `str.rstrip()`: the prefix left after dropping trailing whitespace. */
  function TrimEnd(s: string): (r: string)
    ensures |r| <= |s|
    ensures r == [] || !IsSpace(r[|r| - 1])
    ensures r != [] ==> r[0] == s[0]
    decreases |s|
  {
    if s != [] && IsSpace(s[|s| - 1]) then TrimEnd(s[..|s| - 1]) else s
  }

  /** What `rstrip` keeps is a prefix of its input, and what it drops is
      whitespace. */
  lemma {:induction false} TrimEndSlice(s: string)
    ensures var r := TrimEnd(s);
            && r == s[..|r|]
            && forall i :: |r| <= i < |s| ==> IsSpace(s[i])
    decreases |s|
  {
    if s != [] && IsSpace(s[|s| - 1]) {
      var p := s[..|s| - 1];
      TrimEndSlice(p);
      var r := TrimEnd(s);
      assert p[..|r|] == s[..|r|];
      forall i | |r| <= i < |s|
        ensures IsSpace(s[i])
      {
        if i < |s| - 1 {
          assert s[i] == p[i];
        }
      }
    }
  }

  /** `str.strip()`: whitespace dropped from both ends. */
  function Strip(s: string): (r: string)
    ensures |r| <= |s|
    ensures r == [] || (!IsSpace(r[0]) && !IsSpace(r[|r| - 1]))
  {
    TrimEnd(TrimStart(s))
  }

  /** What `strip` keeps is one contiguous slice of its input, and
      everything cut off on either side of it is whitespace. */
  lemma {:induction false} StripSlice(s: string)
    ensures var r := Strip(s);
            var k := |s| - |TrimStart(s)|;
            && k + |r| <= |s| && r == s[k..k + |r|]
            && (forall i :: 0 <= i < k ==> IsSpace(s[i]))
            && (forall i :: k + |r| <= i < |s| ==> IsSpace(s[i]))
  {
    var t := TrimStart(s);
    TrimStartSlice(s);
    TrimEndSlice(t);
    TrimSlice(s, t, TrimEnd(t));
  }

  /** A prefix `r` of a suffix `t` of `s`, with `s`'s characters beyond
      `r` in `t` all whitespace. */
  lemma {:induction false} TrimSlice(s: string, t: string, r: string)
    requires |t| <= |s| && t == s[|s| - |t|..]
    requires |r| <= |t| && r == t[..|r|]
    requires forall i :: |r| <= i < |t| ==> IsSpace(t[i])
    ensures var k := |s| - |t|;
            && r == s[k..k + |r|]
            && forall i :: k + |r| <= i < |s| ==> IsSpace(s[i])
  {
    var k := |s| - |t|;
    assert s[k..][..|r|] == s[k..k + |r|];
    forall i | k + |r| <= i < |s|
      ensures IsSpace(s[i])
    {
      assert s[i] == t[i - k];
    }
  }

  /** `strip` introduces no character. */
  lemma {:induction false} StripKeepsOnly(s: string, c: char)
    requires c !in s
    ensures c !in Strip(s)
  {
    StripSlice(s);
  }

  /** Text that already neither starts nor ends with whitespace is left alone. */
  lemma {:induction false} StripTrimmed(s: string)
    requires s == [] || (!IsSpace(s[0]) && !IsSpace(s[|s| - 1]))
    ensures Strip(s) == s
  {
  }

  /** One trailing whitespace character is dropped by `rstrip`. */
  lemma {:induction false} TrimEndDrop(s: string)
    requires s != [] && IsSpace(s[|s| - 1])
    ensures TrimEnd(s) == TrimEnd(s[..|s| - 1])
  {
  }

  /** A trailing space never survives `strip`. */
  lemma {:induction false} StripTrailingSpace(s: string)
    requires s == [] || (!IsSpace(s[0]) && !IsSpace(s[|s| - 1]))
    ensures Strip(s + " ") == s
  {
    var x := s + " ";
    assert x[..|x| - 1] == s;
    assert x[|x| - 1] == ' ';
    if s == [] {
      assert TrimStart(x) == TrimStart(x[1..]);
      assert x[1..] == [];
    } else {
      assert x[0] == s[0];
      assert TrimStart(x) == x;
      TrimEndDrop(x);
      StripTrimmed(s);
      assert TrimStart(s) == s;
    }
  }

  // ---------------------------------------------------------------------
  // split(sep) and join

  /** `sep.join(fs)`. */
  function Join(fs: seq<string>, sep: string): string
  {
    if |fs| == 0 then []
    else if |fs| == 1 then fs[0]
    else fs[0] + sep + Join(fs[1..], sep)
  }

  /** `s.split(sep)` for a one-character separator: always at least one
      field, no field contains the separator. */
  function Split(s: string, sep: char): (r: seq<string>)
    ensures |r| >= 1
    ensures forall i :: 0 <= i < |r| ==> sep !in r[i]
    decreases |s|
  {
    if s == [] then [[]]
    else
      var rest := Split(s[1..], sep);
      if s[0] == sep then [[]] + rest
      else [[s[0]] + rest[0]] + rest[1..]
  }

  /** `s.split(sep)[k]`, with `None` standing for the `IndexError` raised
      when there are at most `k` fields. */
  function Field(s: string, sep: char, k: nat): (r: Option<string>)
    ensures r.Some? <==> k < |Split(s, sep)|
    ensures r.Some? ==> sep !in r.value
  {
    var fs := Split(s, sep);
    if k < |fs| then Some(fs[k]) else None
  }

  /** Splitting on `sep` and joining with `sep` gives back the input. */
  lemma {:induction false} SplitJoin(s: string, sep: char)
    ensures Join(Split(s, sep), [sep]) == s
    decreases |s|
  {
    if s != [] {
      var rest := Split(s[1..], sep);
      SplitJoin(s[1..], sep);
      if s[0] == sep {
        assert Split(s, sep)[1..] == rest;
      } else {
        var r := Split(s, sep);
        if |rest| == 1 {
          assert r == [[s[0]] + rest[0]];
        } else {
          assert r[1..] == rest[1..];
          assert Join(rest, [sep]) == rest[0] + [sep] + Join(rest[1..], [sep]);
        }
      }
    }
  }

  /** There is one more field than there are separators. */
  lemma {:induction false} SplitCount(s: string, sep: char)
    ensures |Split(s, sep)| == multiset(s)[sep] + 1
    decreases |s|
  {
    if s != [] {
      SplitCount(s[1..], sep);
      assert s == [s[0]] + s[1..];
      assert multiset(s) == multiset([s[0]]) + multiset(s[1..]);
    }
  }

  /** Field `k` exists exactly when the separator occurs at least `k`
      times. */
  lemma {:induction false} FieldExists(s: string, sep: char, k: nat)
    ensures Field(s, sep, k).Some? <==> k <= multiset(s)[sep]
  {
    SplitCount(s, sep);
  }

  /** A field of index 1 exists exactly when the separator occurs. */
  lemma {:induction false} SecondFieldExists(s: string, sep: char)
    ensures Field(s, sep, 1).Some? <==> sep in s
    ensures Field(s, sep, 2).Some? <==> multiset(s)[sep] >= 2
  {
    SplitCount(s, sep);
  }

  /** Text before the first separator is the first field; the remaining
      fields are those of the text after it. */
  lemma {:induction false} SplitAtFirst(a: string, b: string, sep: char)
    requires sep !in a
    ensures Split(a + [sep] + b, sep) == [a] + Split(b, sep)
    decreases |a|
  {
    var s := a + [sep] + b;
    if a == [] {
      assert s[1..] == b;
    } else {
      assert s[1..] == a[1..] + [sep] + b;
      SplitAtFirst(a[1..], b, sep);
      assert [a[0]] + a[1..] == a;
    }
  }

  /** The first field of text that has no separator is the whole text. */
  lemma {:induction false} SplitNoSeparator(s: string, sep: char)
    requires sep !in s
    ensures Split(s, sep) == [s]
    decreases |s|
  {
    if s != [] {
      SplitNoSeparator(s[1..], sep);
      assert [s[0]] + s[1..] == s;
    }
  }

  // ---------------------------------------------------------------------
  // split() on whitespace

  /** The longest whitespace-free prefix. */
  function TakeWord(s: string): (w: string)
    ensures |w| <= |s|
    ensures |w| < |s| ==> IsSpace(s[|w|])
    ensures s != [] && !IsSpace(s[0]) ==> |w| > 0
    decreases |s|
  {
    if s == [] || IsSpace(s[0]) then [] else [s[0]] + TakeWord(s[1..])
  }

  /** The word taken is a whitespace-free prefix of the text. */
  lemma {:induction false} TakeWordSlice(s: string)
    ensures var w := TakeWord(s); w == s[..|w|] && NoSpace(w)
    decreases |s|
  {
    if s != [] && !IsSpace(s[0]) {
      TakeWordSlice(s[1..]);
      var w := TakeWord(s);
      assert w == [s[0]] + TakeWord(s[1..]);
      assert s == [s[0]] + s[1..];
      forall i | 0 <= i < |w|
        ensures !IsSpace(w[i])
      {
        if i > 0 {
          assert w[i] == TakeWord(s[1..])[i - 1];
        }
      }
    }
  }

  /** `s.split()`: the maximal runs of non-whitespace characters, in order. */
  function Words(s: string): (ws: seq<string>)
    decreases |s|
  {
    var t := TrimStart(s);
    if t == [] then []
    else
      var w := TakeWord(t);
      [w] + Words(t[|w|..])
  }

  /** Every word is non-empty and free of whitespace. */
  lemma {:induction false} WordsAreWords(s: string)
    ensures forall i :: 0 <= i < |Words(s)| ==> IsWord(Words(s)[i])
    decreases |s|
  {
    var t := TrimStart(s);
    if t != [] {
      var w := TakeWord(t);
      var rest := t[|w|..];
      TakeWordSlice(t);
      WordsAreWords(rest);
      var ws := Words(s);
      assert ws == [w] + Words(rest);
      assert NoSpace(w);
      forall i | 0 <= i < |ws|
        ensures IsWord(ws[i])
      {
        if i > 0 {
          assert ws[i] == Words(rest)[i - 1];
        }
      }
    }
  }

  /** `s` with its whitespace removed. */
  function NonSpace(s: string): (r: string)
    decreases |s|
  {
    if s == [] then []
    else (if IsSpace(s[0]) then [] else [s[0]]) + NonSpace(s[1..])
  }

  /** Concatenation of a sequence of sequences. */
  function Concat<T>(xs: seq<seq<T>>): seq<T>
  {
    if xs == [] then [] else xs[0] + Concat(xs[1..])
  }

  /** Appending one more sequence extends the concatenation by it. */
  lemma {:induction false} ConcatSnoc<T>(xs: seq<seq<T>>, x: seq<T>)
    ensures Concat(xs + [x]) == Concat(xs) + x
    decreases |xs|
  {
    if xs == [] {
      assert [] + [x] == [x];
    } else {
      assert (xs + [x])[1..] == xs[1..] + [x];
      ConcatSnoc(xs[1..], x);
    }
  }

  lemma {:induction false} NonSpaceAppend(a: string, b: string)
    ensures NonSpace(a + b) == NonSpace(a) + NonSpace(b)
    decreases |a|
  {
    if a != [] {
      assert (a + b)[0] == a[0];
      assert (a + b)[1..] == a[1..] + b;
      NonSpaceAppend(a[1..], b);
    } else {
      assert a + b == b;
    }
  }

  lemma {:induction false} NonSpaceOfSpaces(s: string)
    requires forall i :: 0 <= i < |s| ==> IsSpace(s[i])
    ensures NonSpace(s) == []
    decreases |s|
  {
    if s != [] {
      NonSpaceOfSpaces(s[1..]);
    }
  }

  lemma {:induction false} NonSpaceOfWord(w: string)
    requires NoSpace(w)
    ensures NonSpace(w) == w
    decreases |w|
  {
    if w != [] {
      NonSpaceOfWord(w[1..]);
    }
  }

  /** Leading whitespace holds no non-whitespace character. */
  lemma {:induction false} NonSpaceTrimStart(s: string)
    ensures NonSpace(s) == NonSpace(TrimStart(s))
  {
    var t := TrimStart(s);
    var k := |s| - |t|;
    TrimStartSlice(s);
    assert s == s[..k] + t;
    NonSpaceAppend(s[..k], t);
    NonSpaceOfSpaces(s[..k]);
  }

  /** The first word is the first run of non-whitespace characters. */
  lemma {:induction false} NonSpaceTakeWord(t: string)
    ensures var w := TakeWord(t); NonSpace(t) == w + NonSpace(t[|w|..])
  {
    var w := TakeWord(t);
    TakeWordSlice(t);
    assert t == w + t[|w|..];
    NonSpaceAppend(w, t[|w|..]);
    NonSpaceOfWord(w);
  }

  /** The words hold every non-whitespace character of the text, in order,
      and nothing else. */
  lemma {:induction false} WordsKeepText(s: string)
    ensures Concat(Words(s)) == NonSpace(s)
    decreases |s|
  {
    var t := TrimStart(s);
    NonSpaceTrimStart(s);
    if t != [] {
      var w := TakeWord(t);
      var rest := t[|w|..];
      NonSpaceTakeWord(t);
      WordsKeepText(rest);
      var ws := Words(s);
      assert ws == [w] + Words(rest);
      assert ws[0] == w && ws[1..] == Words(rest);
    }
  }

  lemma {:induction false} TakeWordOf(w: string, x: string)
    requires NoSpace(w)
    requires x == [] || IsSpace(x[0])
    ensures TakeWord(w + x) == w
    decreases |w|
  {
    if w == [] {
      assert w + x == x;
    } else {
      assert (w + x)[1..] == w[1..] + x;
      TakeWordOf(w[1..], x);
    }
  }

  /** Leading whitespace is not part of any word. */
  lemma {:induction false} WordsSkipSpace(c: char, s: string)
    requires IsSpace(c)
    ensures Words([c] + s) == Words(s)
  {
    assert ([c] + s)[1..] == s;
    assert TrimStart([c] + s) == TrimStart(s);
  }

  /** A word followed by nothing or by whitespace is split off whole. */
  lemma {:induction false} WordsStep(w: string, x: string)
    requires IsWord(w)
    requires x == [] || IsSpace(x[0])
    ensures Words(w + x) == [w] + Words(x)
  {
    var s := w + x;
    assert s[0] == w[0];
    assert TrimStart(s) == s;
    TakeWordOf(w, x);
    assert s[|w|..] == x;
  }

  lemma {:induction false} WordsCons(w: string, tail: string)
    requires IsWord(w)
    ensures Words(w + " " + tail) == [w] + Words(tail)
  {
    WordsStep(w, " " + tail);
    assert w + " " + tail == w + (" " + tail);
    WordsSkipSpace(' ', tail);
  }

  /** `split()` cuts at every whitespace character: the words of text with
      a whitespace character in it are the words before it followed by the
      words after it. */
  lemma {:induction false} WordsAtSpace(a: string, c: char, b: string)
    requires IsSpace(c)
    ensures Words(a + [c] + b) == Words(a) + Words(b)
    decreases |a|
  {
    if a == [] {
      assert a + [c] + b == [c] + b;
      WordsSkipSpace(c, b);
      assert Words(a) == [];
    } else if IsSpace(a[0]) {
      var y := a[1..] + [c] + b;
      assert a + [c] + b == [a[0]] + y;
      assert [a[0]] + a[1..] == a;
      WordsAtSpace(a[1..], c, b);
      WordsAtSpaceAfterSpace(a[0], a[1..], y, b);
    } else {
      var w := TakeWord(a);
      var x := a[|w|..];
      TakeWordSlice(a);
      assert a == w + x;
      var y := x + [c] + b;
      assert a + [c] + b == w + y;
      assert y[0] == if x == [] then c else x[0];
      WordsAtSpace(x, c, b);
      WordsAtSpaceAfterWord(w, x, y, b);
    }
  }

  /** The step of `WordsAtSpace` over a leading whitespace character: `y`
      is the rest of the text with the whitespace character in it, `a` the
      same text before that character. */
  lemma {:induction false} WordsAtSpaceAfterSpace(d: char, a: string, y: string, b: string)
    requires IsSpace(d)
    requires Words(y) == Words(a) + Words(b)
    ensures Words([d] + y) == Words([d] + a) + Words(b)
  {
    WordsSkipSpace(d, y);
    WordsSkipSpace(d, a);
  }

  /** The step of `WordsAtSpace` over a leading word: `y` is the text after
      the word with the whitespace character in it, `x` the same text before
      that character. */
  lemma {:induction false} WordsAtSpaceAfterWord(w: string, x: string, y: string, b: string)
    requires IsWord(w)
    requires x == [] || IsSpace(x[0])
    requires y == [] || IsSpace(y[0])
    requires Words(y) == Words(x) + Words(b)
    ensures Words(w + y) == Words(w + x) + Words(b)
  {
    WordsStep(w, x);
    WordsStep(w, y);
    ConsAppend(Words(w + y), w, Words(y), Words(w + x), Words(x), Words(b));
  }

  /** Putting the same head in front of both sides of an append. */
  lemma {:induction false} ConsAppend<T>(l: seq<T>, h: T, t: seq<T>, r: seq<T>, p: seq<T>, q: seq<T>)
    requires l == [h] + t && r == [h] + p && t == p + q
    ensures l == r + q
  {
  }

  /** Joining words with single spaces and splitting again gives the same
      words back. */
  lemma {:induction false} WordsOfJoin(ws: seq<string>)
    requires forall i :: 0 <= i < |ws| ==> IsWord(ws[i])
    ensures Words(Join(ws, " ")) == ws
    decreases |ws|
  {
    if |ws| == 1 {
      WordsStep(ws[0], []);
      assert ws[0] + [] == ws[0];
    } else if |ws| > 1 {
      var tail := ws[1..];
      assert Join(ws, " ") == ws[0] + " " + Join(tail, " ");
      WordsCons(ws[0], Join(tail, " "));
      WordsOfJoin(tail);
      assert ws == [ws[0]] + tail;
    }
  }

  /** `Join` over a concatenation. */
  lemma {:induction false} JoinAppend(a: seq<string>, b: seq<string>, sep: string)
    requires a != [] && b != []
    ensures Join(a + b, sep) == Join(a, sep) + sep + Join(b, sep)
    decreases |a|
  {
    if |a| == 1 {
      assert (a + b)[1..] == b;
    } else {
      assert (a + b)[1..] == a[1..] + b;
      JoinAppend(a[1..], b, sep);
    }
  }

  /** Joined words neither start nor end with whitespace. */
  lemma {:induction false} JoinWordsTrimmed(ws: seq<string>)
    requires forall i :: 0 <= i < |ws| ==> IsWord(ws[i])
    ensures var j := Join(ws, " "); ws != [] ==> |j| > 0 && !IsSpace(j[0]) && !IsSpace(j[|j| - 1])
    decreases |ws|
  {
    if |ws| > 1 {
      JoinWordsTrimmed(ws[1..]);
    }
  }

  // ---------------------------------------------------------------------
  // Character filters

  /** `s.encode('ascii', 'ignore').decode('ascii')`: drop every character
      whose code point is 128 or more. */
  function AsciiOnly(s: string): (r: string)
    ensures forall i :: 0 <= i < |r| ==> IsAscii(r[i])
    ensures |r| <= |s|
    decreases |s|
  {
    if s == [] then []
    else (if IsAscii(s[0]) then [s[0]] else []) + AsciiOnly(s[1..])
  }

  /** Filtering distributes over concatenation, so the characters kept are
      those of the input, in the input's order. */
  lemma {:induction false} AsciiOnlyAppend(a: string, b: string)
    ensures AsciiOnly(a + b) == AsciiOnly(a) + AsciiOnly(b)
    decreases |a|
  {
    if a == [] {
      assert a + b == b;
    } else {
      assert (a + b)[0] == a[0];
      assert (a + b)[1..] == a[1..] + b;
      AsciiOnlyAppend(a[1..], b);
    }
  }

  /** Every ASCII character is kept as often as it occurs; no other
      character is kept. */
  lemma {:induction false} AsciiOnlyCount(s: string, c: char)
    ensures multiset(AsciiOnly(s))[c] == if IsAscii(c) then multiset(s)[c] else 0
    decreases |s|
  {
    if s != [] {
      AsciiOnlyCount(s[1..], c);
      assert s == [s[0]] + s[1..];
      assert multiset(s) == multiset([s[0]]) + multiset(s[1..]);
    }
  }

  /** Text that is already ASCII passes unchanged. */
  lemma {:induction false} AsciiOnlyOfAscii(s: string)
    requires forall i :: 0 <= i < |s| ==> IsAscii(s[i])
    ensures AsciiOnly(s) == s
    decreases |s|
  {
    if s != [] {
      AsciiOnlyOfAscii(s[1..]);
      assert [s[0]] + s[1..] == s;
    }
  }

  /** Filtering twice is filtering once. */
  lemma {:induction false} AsciiOnlyIdempotent(s: string)
    ensures AsciiOnly(AsciiOnly(s)) == AsciiOnly(s)
  {
    AsciiOnlyOfAscii(AsciiOnly(s));
  }

  /** `s.replace(c, '')`. */
  function RemoveAll(s: string, c: char): (r: string)
    ensures c !in r
    ensures forall d :: d != c ==> multiset(r)[d] == multiset(s)[d]
    decreases |s|
  {
    if s == [] then []
    else
      assert s == [s[0]] + s[1..];
      (if s[0] == c then [] else [s[0]]) + RemoveAll(s[1..], c)
  }

  /** Removal distributes over concatenation, so the characters kept stay
      in the input's order. */
  lemma {:induction false} RemoveAllAppend(a: string, b: string, c: char)
    ensures RemoveAll(a + b, c) == RemoveAll(a, c) + RemoveAll(b, c)
    decreases |a|
  {
    if a == [] {
      assert a + b == b;
    } else {
      assert (a + b)[0] == a[0];
      assert (a + b)[1..] == a[1..] + b;
      RemoveAllAppend(a[1..], b, c);
    }
  }

  /** Text without the character is left unchanged. */
  lemma {:induction false} RemoveAllAbsent(s: string, c: char)
    requires c !in s
    ensures RemoveAll(s, c) == s
    decreases |s|
  {
    if s != [] {
      RemoveAllAbsent(s[1..], c);
      assert [s[0]] + s[1..] == s;
    }
  }

  /** `c.lower()` restricted to ASCII letters. */
  function LowerChar(c: char): char
  {
    if 'A' <= c <= 'Z' then (c as int + 32) as char else c
  }

  /** `s.lower()`, ASCII letters only. */
  function Lower(s: string): (r: string)
    ensures |r| == |s|
  {
    seq(|s|, i requires 0 <= i < |s| => LowerChar(s[i]))
  }

  /** Lowering turns each upper-case letter into its lower-case letter,
      leaves no upper-case letter, changes nothing else, and lowering again
      changes nothing. */
  lemma {:induction false} LowerIdempotent(s: string)
    ensures forall i :: 0 <= i < |s| && 'A' <= s[i] <= 'Z' ==>
              'a' <= Lower(s)[i] <= 'z' && Lower(s)[i] as int == s[i] as int + 32
    ensures forall i :: 0 <= i < |s| ==> !('A' <= Lower(s)[i] <= 'Z')
    ensures forall i :: 0 <= i < |s| && !('A' <= s[i] <= 'Z') ==> Lower(s)[i] == s[i]
    ensures Lower(Lower(s)) == Lower(s)
  {
  }

  /** `t in s` for sequences: `t` occurs as a contiguous run of `s`. */
  predicate Contains<T(==)>(s: seq<T>, t: seq<T>)
    decreases |s|
  {
    t <= s || (s != [] && Contains(s[1..], t))
  }

  /** An occurrence found at a position is found by `Contains`. */
  lemma {:induction false} ContainsAt<T>(s: seq<T>, t: seq<T>, i: nat)
    requires i + |t| <= |s| && s[i..i + |t|] == t
    ensures Contains(s, t)
    decreases i
  {
    if i > 0 {
      assert s[1..][i - 1..i - 1 + |t|] == s[i..i + |t|];
      ContainsAt(s[1..], t, i - 1);
    }
  }

  /** Every occurrence `Contains` reports is at some position. */
  lemma {:induction false} ContainsWitness<T>(s: seq<T>, t: seq<T>) returns (i: nat)
    requires Contains(s, t)
    ensures i + |t| <= |s| && s[i..i + |t|] == t
    decreases |s|
  {
    if t <= s {
      i := 0;
    } else {
      var j := ContainsWitness(s[1..], t);
      i := j + 1;
      assert s[1..][j..j + |t|] == s[i..i + |t|];
    }
  }

  /** Appending more text never hides an occurrence. */
  lemma {:induction false} ContainsExtend<T>(a: seq<T>, b: seq<T>, t: seq<T>)
    requires Contains(a, t)
    ensures Contains(a + b, t)
  {
    var i := ContainsWitness(a, t);
    assert (a + b)[i..i + |t|] == a[i..i + |t|];
    ContainsAt(a + b, t, i);
  }
}
