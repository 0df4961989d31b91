/** The string primitives the handlers rely on: `str.split(sep)`, `str.split()`,
    `str.strip()`, `str.lower()` and `int(...)`. */
module Text {
  import opened Results

  /** Python's `str.isspace` for a single character: the characters `str.strip()`
      removes and `str.split()` splits on. */
  predicate IsSpace(c: char) {
    || c == ' '
    || ('\t' <= c <= '\r')
    || ('\U{1C}' <= c <= '\U{1F}')
    || c == '\U{85}' || c == '\U{A0}' || c == '\U{1680}'
    || ('\U{2000}' <= c <= '\U{200A}')
    || c == '\U{2028}' || c == '\U{2029}' || c == '\U{202F}' || c == '\U{205F}' || c == '\U{3000}'
  }

  /** `str.lower()` restricted to the ASCII letters; other characters are kept. */
  function LowerChar(c: char): (d: char)
    ensures 'A' <= c <= 'Z' ==> 'a' <= d <= 'z' && d as int - c as int == 32
    ensures !('A' <= c <= 'Z') ==> d == c
  {
    if 'A' <= c <= 'Z' then (c as int + 32) as char else c
  }

  function Lower(s: string): (r: string)
    ensures |r| == |s|
    ensures forall i :: 0 <= i < |s| ==> r[i] == LowerChar(s[i])
  {
    seq(|s|, i requires 0 <= i < |s| => LowerChar(s[i]))
  }

  // ---------------------------------------------------------------------------
  // str.split(sep) and its inverse sep.join(parts)
  // ---------------------------------------------------------------------------

  /** `sep.join(parts)`; Python's `split` never returns an empty list, so neither is joined here. */
  function Join(parts: seq<string>, sep: char): string
    requires |parts| >= 1
    decreases |parts|
  {
    if |parts| == 1 then parts[0] else parts[0] + [sep] + Join(parts[1..], sep)
  }

  /** Python's `s.split(sep)` for a one-character separator: every separator
      ends a part, so `k` separators give `k + 1` parts, some possibly empty. */
  function Split(s: string, sep: char): (parts: seq<string>)
    ensures |parts| >= 1
    ensures forall p :: p in parts ==> sep !in p
    decreases |s|
  {
    if |s| == 0 then [""]
    else
      var rest := Split(s[1..], sep);
      if s[0] == sep then [""] + rest
      else [[s[0]] + rest[0]] + rest[1..]
  }

  /** Joining the parts back with the separator restores the string. */
  lemma {:induction false} JoinSplit(s: string, sep: char)
    ensures Join(Split(s, sep), sep) == s
    decreases |s|
  {
    if |s| > 0 {
      var rest := Split(s[1..], sep);
      JoinSplit(s[1..], sep);
      if s[0] == sep {
        assert ([""] + rest)[1..] == rest;
      } else {
        var parts := [[s[0]] + rest[0]] + rest[1..];
        if |rest| == 1 {
          assert parts == [[s[0]] + rest[0]];
        } else {
          assert parts[1..] == rest[1..];
          assert Join(rest, sep) == rest[0] + [sep] + Join(rest[1..], sep);
        }
      }
    }
  }

  /** A part without the separator, followed by the separator, splits off as one part. */
  lemma {:induction false} SplitPrefix(p: string, sep: char, tail: string)
    requires sep !in p
    ensures Split(p + [sep] + tail, sep) == [p] + Split(tail, sep)
    decreases |p|
  {
    var s := p + [sep] + tail;
    if |p| == 0 {
      assert s[0] == sep && s[1..] == tail;
    } else {
      assert s[0] == p[0] && s[1..] == p[1..] + [sep] + tail;
      SplitPrefix(p[1..], sep, tail);
      assert [p[0]] + p[1..] == p;
    }
  }

  /** A string without the separator is a single part. */
  lemma {:induction false} SplitNoSep(p: string, sep: char)
    requires sep !in p
    ensures Split(p, sep) == [p]
    decreases |p|
  {
    if |p| > 0 {
      SplitNoSep(p[1..], sep);
      assert [p[0]] + p[1..] == p;
    }
  }

  /** Splitting a join of separator-free parts gives the parts back. */
  lemma {:induction false} SplitJoin(parts: seq<string>, sep: char)
    requires |parts| >= 1
    requires forall p :: p in parts ==> sep !in p
    ensures Split(Join(parts, sep), sep) == parts
    decreases |parts|
  {
    if |parts| == 1 {
      SplitNoSep(parts[0], sep);
    } else {
      assert parts[0] in parts;
      assert forall p :: p in parts[1..] ==> p in parts;
      SplitJoin(parts[1..], sep);
      SplitPrefix(parts[0], sep, Join(parts[1..], sep));
      assert [parts[0]] + parts[1..] == parts;
    }
  }

  // ---------------------------------------------------------------------------
  // The last dot-separated segment: `name.split(".")[-1]`
  // ---------------------------------------------------------------------------

  function LastSegment(s: string, sep: char): string {
    var parts := Split(s, sep);
    parts[|parts| - 1]
  }

  /** The text after the last separator, or the whole string when it has none. */
  predicate IsLastSegment(s: string, sep: char, seg: string) {
    && |seg| <= |s|
    && s[|s| - |seg|..] == seg
    && sep !in seg
    && (|seg| == |s| || s[|s| - |seg| - 1] == sep)
  }

  /** The joined string ends with the last part, preceded by a separator when there are several. */
  lemma {:induction false} JoinEndsWithLast(parts: seq<string>, sep: char)
    requires |parts| >= 1
    requires sep !in parts[|parts| - 1]
    ensures IsLastSegment(Join(parts, sep), sep, parts[|parts| - 1])
    decreases |parts|
  {
    if |parts| > 1 {
      JoinEndsWithLast(parts[1..], sep);
    }
  }

  /** `split(sep)[-1]` is the maximal separator-free suffix, ... */
  lemma LastSegmentIsSuffix(s: string, sep: char)
    ensures IsLastSegment(s, sep, LastSegment(s, sep))
  {
    var parts := Split(s, sep);
    assert parts[|parts| - 1] in parts;
    JoinEndsWithLast(parts, sep);
    JoinSplit(s, sep);
  }

  /** ... and that suffix is unique, so it pins `split(sep)[-1]` down completely. */
  lemma LastSegmentUnique(s: string, sep: char, seg: string)
    requires IsLastSegment(s, sep, seg)
    ensures LastSegment(s, sep) == seg
  {
    var other := LastSegment(s, sep);
    LastSegmentIsSuffix(s, sep);
  }

  // ---------------------------------------------------------------------------
  // str.strip()
  // ---------------------------------------------------------------------------

  /** The number of whitespace characters at the front of `s`. */
  function LeadingSpaces(s: string): (n: nat)
    ensures n <= |s|
    ensures forall i :: 0 <= i < n ==> IsSpace(s[i])
    ensures n < |s| ==> !IsSpace(s[n])
    decreases |s|
  {
    if |s| > 0 && IsSpace(s[0]) then 1 + LeadingSpaces(s[1..]) else 0
  }

  /** Drops the trailing whitespace. */
  function TrimEnd(s: string): (r: string)
    ensures |r| <= |s| && r == s[..|r|]
    ensures forall i :: |r| <= i < |s| ==> IsSpace(s[i])
    ensures |r| > 0 ==> !IsSpace(r[|r| - 1])
    decreases |s|
  {
    if |s| > 0 && IsSpace(s[|s| - 1]) then TrimEnd(s[..|s| - 1]) else s
  }

  /** Python's `s.strip()`: the infix left after removing whitespace at both ends.
      It starts right after the leading whitespace and is followed only by whitespace. */
  function Strip(s: string): (r: string)
    ensures LeadingSpaces(s) + |r| <= |s|
    ensures r == s[LeadingSpaces(s)..LeadingSpaces(s) + |r|]
    ensures forall i :: LeadingSpaces(s) + |r| <= i < |s| ==> IsSpace(s[i])
    ensures |r| > 0 ==> !IsSpace(r[0]) && !IsSpace(r[|r| - 1])
  {
    TrimEnd(s[LeadingSpaces(s)..])
  }

  /** A string of whitespace strips to the empty string. */
  lemma StripAllSpace(s: string)
    requires forall i :: 0 <= i < |s| ==> IsSpace(s[i])
    ensures Strip(s) == ""
  {
  }

  /** `strip` keeps exactly `s[m..n]` when only whitespace lies outside it and the
      slice starts and ends with a non-whitespace character. */
  lemma StripBetween(s: string, m: nat, n: nat)
    requires m < n <= |s|
    requires forall i :: 0 <= i < m ==> IsSpace(s[i])
    requires forall i :: n <= i < |s| ==> IsSpace(s[i])
    requires !IsSpace(s[m]) && !IsSpace(s[n - 1])
    ensures Strip(s) == s[m..n]
  {
    var r := Strip(s);
    var a := LeadingSpaces(s);
    assert a == m;
    assert |r| > 0;
    assert r[|r| - 1] == s[a + |r| - 1];
  }

  /** `strip` removes exactly the whitespace around a core that has none at its ends. */
  lemma StripSurrounded(pre: string, core: string, post: string)
    requires forall i :: 0 <= i < |pre| ==> IsSpace(pre[i])
    requires forall i :: 0 <= i < |post| ==> IsSpace(post[i])
    requires |core| > 0 ==> !IsSpace(core[0]) && !IsSpace(core[|core| - 1])
    ensures Strip(pre + core + post) == core
  {
    var s := pre + core + post;
    var m, n := |pre|, |pre| + |core|;
    assert forall i :: 0 <= i < m ==> s[i] == pre[i];
    assert forall i :: n <= i < |s| ==> s[i] == post[i - n];
    if m < n {
      assert s[m..n] == core;
      StripBetween(s, m, n);
    } else {
      assert forall i :: 0 <= i < |s| ==> IsSpace(s[i]);
      StripAllSpace(s);
    }
  }

  /** A string with no whitespace at its ends is left alone by `strip`. */
  lemma StripUnchanged(s: string)
    requires |s| > 0 ==> !IsSpace(s[0]) && !IsSpace(s[|s| - 1])
    ensures Strip(s) == s
  {
  }

  // ---------------------------------------------------------------------------
  // int(...) on a stripped segment, and its inverse str(n)
  // ---------------------------------------------------------------------------

  predicate IsDigit(c: char) {
    '0' <= c <= '9'
  }

  predicate AllDigits(s: string) {
    forall i :: 0 <= i < |s| ==> IsDigit(s[i])
  }

  /** An integer literal `int()` accepts (ASCII digits only): an optional sign and at least one digit. */
  predicate IsIntLiteral(s: string) {
    if |s| > 0 && (s[0] == '+' || s[0] == '-') then |s| > 1 && AllDigits(s[1..])
    else |s| > 0 && AllDigits(s)
  }

  /** The value of a decimal digit string, most significant digit first. */
  function DigitsValue(s: string): nat
    requires AllDigits(s)
    decreases |s|
  {
    if |s| == 0 then 0
    else DigitsValue(s[..|s| - 1]) * 10 + (s[|s| - 1] as int - '0' as int)
  }

  /** Python's `int(s)` on an already stripped string: `None` stands for the `ValueError`. */
  function ParseInt(s: string): (r: Option<int>)
    ensures r.Some? <==> IsIntLiteral(s)
    ensures r.Some? && s[0] == '-' ==> r.value <= 0
    ensures r.Some? && s[0] != '-' ==> r.value >= 0
  {
    if |s| > 0 && s[0] == '-' then
      if |s| > 1 && AllDigits(s[1..]) then var v: int := DigitsValue(s[1..]); Some(-v) else None
    else if |s| > 0 && s[0] == '+' then
      if |s| > 1 && AllDigits(s[1..]) then Some(DigitsValue(s[1..])) else None
    else if |s| > 0 && AllDigits(s) then Some(DigitsValue(s))
    else None
  }

  function DigitChar(d: nat): (c: char)
    requires d < 10
    ensures IsDigit(c)
  {
    ('0' as int + d) as char
  }

  /** Python's `str(n)` for a natural number. */
  function ShowNat(n: nat): (s: string)
    ensures |s| > 0 && AllDigits(s)
    decreases n
  {
    if n < 10 then [DigitChar(n)] else ShowNat(n / 10) + [DigitChar(n % 10)]
  }

  /** Python's `str(n)`. */
  function ShowInt(n: int): (s: string)
    ensures |s| > 0 && !IsSpace(s[0]) && !IsSpace(s[|s| - 1])
    ensures ',' !in s
  {
    if n < 0 then "-" + ShowNat(-n) else ShowNat(n)
  }

  lemma {:induction false} DigitsValueShowNat(n: nat)
    ensures DigitsValue(ShowNat(n)) == n
    decreases n
  {
    if n >= 10 {
      var s := ShowNat(n);
      DigitsValueShowNat(n / 10);
      assert s[..|s| - 1] == ShowNat(n / 10);
    }
  }

  /** `int(str(n)) == n`. */
  lemma ParseShowInt(n: int)
    ensures ParseInt(ShowInt(n)) == Some(n)
  {
    var s := ShowInt(n);
    if n < 0 {
      DigitsValueShowNat(-n);
      assert s == "-" + ShowNat(-n);
      assert s[0] == '-' && s[1..] == ShowNat(-n);
    } else {
      DigitsValueShowNat(n);
      assert s == ShowNat(n);
      assert s[0] != '-' && s[0] != '+';
    }
  }

  /** `z` zero digits. */
  function Zeros(z: nat): (s: string)
    ensures |s| == z && AllDigits(s)
    ensures forall i :: 0 <= i < z ==> s[i] == '0'
  {
    seq(z, _ => '0')
  }

  lemma {:induction false} ZerosValue(z: nat)
    ensures DigitsValue(Zeros(z)) == 0
    decreases z
  {
    if z > 0 {
      assert Zeros(z)[..z - 1] == Zeros(z - 1);
      ZerosValue(z - 1);
    }
  }

  /** Leading zeros do not change the value of a digit string. */
  lemma {:induction false} LeadingZerosValue(z: nat, t: string)
    requires AllDigits(t)
    ensures AllDigits(Zeros(z) + t)
    ensures DigitsValue(Zeros(z) + t) == DigitsValue(t)
    decreases |t|
  {
    var s := Zeros(z) + t;
    if |t| == 0 {
      assert s == Zeros(z);
      ZerosValue(z);
    } else {
      assert s[..|s| - 1] == Zeros(z) + t[..|t| - 1];
      LeadingZerosValue(z, t[..|t| - 1]);
    }
  }

  /** `int()` of any spelling of a number, with or without a sign and with any
      number of leading zeros: `int("007") == 7`, `int("+4") == 4`, `int("-00") == 0`. */
  lemma ParseSpelled(sign: string, z: nat, n: nat)
    requires sign == "" || sign == "+" || sign == "-"
    ensures ParseInt(sign + (Zeros(z) + ShowNat(n))) == Some(if sign == "-" then -(n as int) else n as int)
  {
    var digits := Zeros(z) + ShowNat(n);
    LeadingZerosValue(z, ShowNat(n));
    DigitsValueShowNat(n);
    var s := sign + digits;
    assert IsDigit(digits[0]);
    if sign == "" {
      assert s == digits;
    } else {
      assert s[0] == sign[0];
      assert s[1..] == digits;
    }
  }

  // ---------------------------------------------------------------------------
  // str.split() with no separator: whitespace-delimited words
  // ---------------------------------------------------------------------------

  /** Length of the word at the front of `s`. */
  function WordLength(s: string): (n: nat)
    requires |s| > 0 && !IsSpace(s[0])
    ensures 1 <= n <= |s|
    ensures forall i :: 0 <= i < n ==> !IsSpace(s[i])
    ensures n == |s| || IsSpace(s[n])
    decreases |s|
  {
    if |s| == 1 || IsSpace(s[1]) then 1 else 1 + WordLength(s[1..])
  }

  predicate IsWord(w: string) {
    |w| > 0 && forall i :: 0 <= i < |w| ==> !IsSpace(w[i])
  }

  /** Python's `s.split()`: the maximal runs of non-whitespace characters. */
  function Words(s: string): (ws: seq<string>)
    ensures forall w :: w in ws ==> IsWord(w)
    decreases |s|
  {
    if |s| == 0 then []
    else if IsSpace(s[0]) then Words(s[1..])
    else
      var n := WordLength(s);
      [s[..n]] + Words(s[n..])
  }

  /** A string has at most as many words as characters, and none exactly when it is all whitespace. */
  lemma {:induction false} WordsCount(s: string)
    ensures |Words(s)| <= |s|
    ensures |Words(s)| == 0 <==> forall i :: 0 <= i < |s| ==> IsSpace(s[i])
    decreases |s|
  {
    if |s| > 0 {
      if IsSpace(s[0]) {
        WordsCount(s[1..]);
        assert forall i :: 1 <= i < |s| ==> s[i] == s[1..][i - 1];
      } else {
        var n := WordLength(s);
        WordsCount(s[n..]);
        assert Words(s) == [s[..n]] + Words(s[n..]);
      }
    }
  }

  /** `" ".join(ws)`. */
  function Unwords(ws: seq<string>): string {
    if |ws| == 0 then "" else Join(ws, ' ')
  }

  lemma {:induction false} WordLengthOfWord(w: string, tail: string)
    requires IsWord(w)
    requires |tail| == 0 || IsSpace(tail[0])
    ensures WordLength(w + tail) == |w|
    decreases |w|
  {
    var s := w + tail;
    if |w| > 1 {
      assert s[1..] == w[1..] + tail;
      WordLengthOfWord(w[1..], tail);
    }
  }

  /** Splitting words joined by single spaces recovers the words. */
  lemma {:induction false} WordsUnwords(ws: seq<string>)
    requires forall w :: w in ws ==> IsWord(w)
    ensures Words(Unwords(ws)) == ws
    decreases |ws|
  {
    if |ws| == 1 {
      WordLengthOfWord(ws[0], "");
      assert ws[0][|ws[0]|..] == [];
      assert ws[0][..|ws[0]|] == ws[0];
    } else if |ws| > 1 {
      var tail := Join(ws[1..], ' ');
      var s := ws[0] + ([' '] + tail);
      assert s == Unwords(ws);
      assert ws[0] in ws;
      WordLengthOfWord(ws[0], [' '] + tail);
      assert s[..|ws[0]|] == ws[0];
      assert s[|ws[0]|..] == [' '] + tail;
      assert ([' '] + tail)[1..] == tail;
      assert forall w :: w in ws[1..] ==> w in ws;
      WordsUnwords(ws[1..]);
      assert Unwords(ws[1..]) == tail;
      assert [ws[0]] + ws[1..] == ws;
    }
  }

  /** Words `ws` each followed by its own run of whitespace `gaps[k]`. */
  function Spaced(ws: seq<string>, gaps: seq<string>): string
    requires |gaps| == |ws|
    decreases |ws|
  {
    if |ws| == 0 then "" else ws[0] + (gaps[0] + Spaced(ws[1..], gaps[1..]))
  }

  /** Leading whitespace contributes no words. */
  lemma {:induction false} WordsSkipSpaces(pre: string, s: string)
    requires forall i :: 0 <= i < |pre| ==> IsSpace(pre[i])
    ensures Words(pre + s) == Words(s)
    decreases |pre|
  {
    if |pre| > 0 {
      var t := pre + s;
      assert t[0] == pre[0];
      assert t[1..] == pre[1..] + s;
      WordsSkipSpaces(pre[1..], s);
    } else {
      assert pre + s == s;
    }
  }

  /** A word followed by whitespace or the end is the first word. */
  lemma WordsWordFirst(w: string, rest: string)
    requires IsWord(w)
    requires |rest| == 0 || IsSpace(rest[0])
    ensures Words(w + rest) == [w] + Words(rest)
  {
    var t := w + rest;
    WordLengthOfWord(w, rest);
    assert t[..|w|] == w;
    assert t[|w|..] == rest;
  }

  /** `str.split()` of words separated by any non-empty whitespace, with any
      whitespace before the first and after the last, gives back exactly the
      words: runs of several blanks, tabs or newlines split once. */
  lemma {:induction false} WordsSpaced(lead: string, ws: seq<string>, gaps: seq<string>)
    requires |gaps| == |ws|
    requires forall i :: 0 <= i < |lead| ==> IsSpace(lead[i])
    requires forall w :: w in ws ==> IsWord(w)
    requires forall k, i :: 0 <= k < |gaps| && 0 <= i < |gaps[k]| ==> IsSpace(gaps[k][i])
    requires forall k :: 0 <= k < |gaps| - 1 ==> |gaps[k]| > 0
    ensures Words(lead + Spaced(ws, gaps)) == ws
    decreases |ws|
  {
    var body := Spaced(ws, gaps);
    WordsSkipSpaces(lead, body);
    if |ws| > 0 {
      var rest := gaps[0] + Spaced(ws[1..], gaps[1..]);
      assert ws[0] in ws;
      if |ws| > 1 {
        assert rest[0] == gaps[0][0];
      } else {
        assert rest == gaps[0];
      }
      WordsWordFirst(ws[0], rest);
      var ws', gaps' := ws[1..], gaps[1..];
      assert forall w :: w in ws' ==> w in ws;
      assert forall k, i :: 0 <= k < |gaps'| && 0 <= i < |gaps'[k]| ==> IsSpace(gaps'[k][i]) by {
        assert forall k :: 0 <= k < |gaps'| ==> gaps'[k] == gaps[k + 1];
      }
      assert forall k :: 0 <= k < |gaps'| - 1 ==> |gaps'[k]| > 0;
      WordsSpaced(gaps[0], ws', gaps');
      assert ws == [ws[0]] + ws';
    }
  }

  /** Concatenation of a sequence of strings. */
  function Concat(ws: seq<string>): string
    decreases |ws|
  {
    if |ws| == 0 then "" else ws[0] + Concat(ws[1..])
  }

  /** The characters of `s` that are not whitespace. */
  function NonSpace(s: string): string
    decreases |s|
  {
    if |s| == 0 then "" else (if IsSpace(s[0]) then "" else [s[0]]) + NonSpace(s[1..])
  }

  lemma {:induction false} NonSpaceOfWord(w: string, tail: string)
    requires forall i :: 0 <= i < |w| ==> !IsSpace(w[i])
    ensures NonSpace(w + tail) == w + NonSpace(tail)
    decreases |w|
  {
    if |w| > 0 {
      var s := w + tail;
      assert s[0] == w[0] && !IsSpace(s[0]);
      assert s[1..] == w[1..] + tail;
      NonSpaceOfWord(w[1..], tail);
      assert [w[0]] + w[1..] == w;
    } else {
      assert w + tail == tail;
    }
  }

  /** The words cover every non-whitespace character of `s`, in order. */
  lemma {:induction false} WordsCoverText(s: string)
    ensures Concat(Words(s)) == NonSpace(s)
    decreases |s|
  {
    if |s| > 0 {
      if IsSpace(s[0]) {
        WordsCoverText(s[1..]);
      } else {
        var n := WordLength(s);
        WordsCoverText(s[n..]);
        assert s == s[..n] + s[n..];
        NonSpaceOfWord(s[..n], s[n..]);
        assert ([s[..n]] + Words(s[n..]))[1..] == Words(s[n..]);
      }
    }
  }
}
