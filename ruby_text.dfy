/**
  The Ruby String operations the daemon relies on, over ASCII text:
  `chomp`, `downcase`, `split` with a one-character separator,
  `split` with no argument (whitespace fields) and `Integer#to_s`.
 */
module RubyText {
  import opened Wrappers

  predicate EndsWith(s: string, suffix: string) {
    |suffix| <= |s| && s[|s| - |suffix|..] == suffix
  }

  /** `s.chomp(suffix)` for a non-empty `suffix`: one trailing copy of `suffix` is removed, if there is one. */
  function Chomp(s: string, suffix: string): (r: string)
    ensures if EndsWith(s, suffix) then r + suffix == s else r == s
  {
    if EndsWith(s, suffix) then s[..|s| - |suffix|] else s
  }

  /** Chomping a string that ends with the suffix gives what came before it. */
  lemma {:induction false} ChompOf(x: string, suffix: string)
    ensures Chomp(x + suffix, suffix) == x
  {
    assert (x + suffix)[|x|..] == suffix;
  }

  /** `s.chomp` with no argument: one trailing "\r\n", "\n" or "\r" is removed. */
  function ChompLine(s: string): (r: string)
    ensures s == r || s == r + "\n" || s == r + "\r" || s == r + "\r\n"
    ensures (s == [] || (s[|s| - 1] != '\n' && s[|s| - 1] != '\r')) ==> r == s
    ensures EndsWith(s, "\r\n") ==> r + "\r\n" == s
    ensures !EndsWith(s, "\r\n") && s != [] && (s[|s| - 1] == '\n' || s[|s| - 1] == '\r') ==> |r| == |s| - 1
  {
    if EndsWith(s, "\r\n") then s[..|s| - 2]
    else if EndsWith(s, "\n") || EndsWith(s, "\r") then s[..|s| - 1]
    else s
  }

  /** ASCII lower-casing of one character. */
  function LowerChar(c: char): char {
    if 'A' <= c <= 'Z' then (c as int + 32) as char else c
  }

  /** `s.downcase` on ASCII letters: every character lower-cased, the length kept. */
  function Downcase(s: string): (r: string)
    ensures |r| == |s|
    ensures forall i :: 0 <= i < |s| ==> r[i] == LowerChar(s[i])
  {
    if s == [] then [] else [LowerChar(s[0])] + Downcase(s[1..])
  }

  /** Equality up to ASCII letter case, character by character. */
  predicate EqualIgnoringCase(s: string, t: string) {
    |s| == |t| && forall i :: 0 <= i < |s| ==> LowerChar(s[i]) == LowerChar(t[i])
  }

  /** Comparing lower-cased strings is comparing up to letter case. */
  lemma {:induction false} DowncaseEqual(s: string, t: string)
    ensures Downcase(s) == Downcase(t) <==> EqualIgnoringCase(s, t)
  {
    if EqualIgnoringCase(s, t) {
      assert forall i :: 0 <= i < |s| ==> Downcase(s)[i] == Downcase(t)[i];
    }
  }

  // ---------------------------------------------------------------------------
  // split with a one-character separator

  /** How many times `c` occurs in `s`. */
  function Occurrences(s: string, c: char): nat {
    if s == [] then 0 else (if s[0] == c then 1 else 0) + Occurrences(s[1..], c)
  }

  /** The pieces of `s` between occurrences of `sep`, empty pieces included:
      one more piece than there are separators. */
  function SplitAll(s: string, sep: char): (r: seq<string>)
    ensures |r| >= 1
  {
    if s == [] then [[]]
    else
      var rest := SplitAll(s[1..], sep);
      if s[0] == sep then [[]] + rest else [[s[0]] + rest[0]] + rest[1..]
  }

  /** There is one more piece than there are separators. */
  lemma {:induction false} SplitAllCount(s: string, sep: char)
    ensures |SplitAll(s, sep)| == Occurrences(s, sep) + 1
  {
    if s != [] {
      SplitAllCount(s[1..], sep);
    }
  }

  /** No piece holds the separator. */
  lemma {:induction false} SplitAllPieces(s: string, sep: char)
    ensures forall k :: 0 <= k < |SplitAll(s, sep)| ==> sep !in SplitAll(s, sep)[k]
  {
    if s != [] {
      SplitAllPieces(s[1..], sep);
    }
  }

  /** The pieces put back together with `sep` between them. */
  function Join(parts: seq<string>, sep: char): string
    requires |parts| >= 1
  {
    if |parts| == 1 then parts[0] else parts[0] + [sep] + Join(parts[1..], sep)
  }

  /** Joining empty pieces gives separators only. */
  lemma {:induction false} JoinEmpty(parts: seq<string>, sep: char)
    requires |parts| >= 1 && forall k :: 0 <= k < |parts| ==> parts[k] == []
    ensures forall i :: 0 <= i < |Join(parts, sep)| ==> Join(parts, sep)[i] == sep
  {
    if |parts| > 1 {
      JoinEmpty(parts[1..], sep);
    }
  }

  /** Splitting loses nothing: joining the pieces gives the string back. */
  lemma {:induction false} JoinSplitAll(s: string, sep: char)
    ensures Join(SplitAll(s, sep), sep) == s
  {
    if s != [] {
      var rest := SplitAll(s[1..], sep);
      JoinSplitAll(s[1..], sep);
      if s[0] == sep {
        assert SplitAll(s, sep) == [[]] + rest;
        assert ([[]] + rest)[1..] == rest;
        assert s == [sep] + s[1..];
      } else {
        var parts := [[s[0]] + rest[0]] + rest[1..];
        assert SplitAll(s, sep) == parts;
        if |rest| == 1 {
          assert Join(parts, sep) == [s[0]] + rest[0];
        } else {
          assert parts[1..] == rest[1..];
          assert Join(rest, sep) == rest[0] + [sep] + Join(rest[1..], sep);
          assert Join(parts, sep) == [s[0]] + rest[0] + [sep] + Join(rest[1..], sep);
        }
        assert s == [s[0]] + s[1..];
      }
    }
  }

  /** A separator splits the string into the pieces of the part before it and the pieces of the part after it. */
  lemma {:induction false} SplitAllAppend(a: string, b: string, sep: char)
    ensures SplitAll(a + [sep] + b, sep) == SplitAll(a, sep) + SplitAll(b, sep)
  {
    if a == [] {
      assert a + [sep] + b == [sep] + b;
      SplitAllCons(sep, b, sep);
      assert SplitAll(a, sep) == [[]];
    } else {
      var c, t := a[0], a[1..];
      assert a == [c] + t;
      assert a + [sep] + b == [c] + (t + [sep] + b);
      SplitAllAppend(t, b, sep);
      SplitAllConsAppend(c, t, b, sep);
    }
  }

  /** The induction step of SplitAllAppend: one more character in front. */
  lemma {:induction false} SplitAllConsAppend(c: char, t: string, b: string, sep: char)
    requires SplitAll(t + [sep] + b, sep) == SplitAll(t, sep) + SplitAll(b, sep)
    ensures SplitAll([c] + (t + [sep] + b), sep) == SplitAll([c] + t, sep) + SplitAll(b, sep)
  {
    var pt, pb := SplitAll(t, sep), SplitAll(b, sep);
    SplitAllCons(c, t + [sep] + b, sep);
    SplitAllCons(c, t, sep);
    if c == sep {
      ConcatAssoc([[]], pt, pb);
    } else {
      assert (pt + pb)[0] == pt[0];
      assert (pt + pb)[1..] == pt[1..] + pb;
      ConcatAssoc([[c] + pt[0]], pt[1..], pb);
    }
  }

  /** Concatenation is associative (stated generically, so element types do not get in the way). */
  lemma ConcatAssoc<T>(x: seq<T>, y: seq<T>, z: seq<T>)
    ensures x + (y + z) == (x + y) + z
  {
  }

  /** How a split starts: a separator opens a new empty piece, any other character joins the first piece. */
  lemma {:induction false} SplitAllCons(c: char, t: string, sep: char)
    ensures SplitAll([c] + t, sep) ==
              if c == sep then [[]] + SplitAll(t, sep) else [[c] + SplitAll(t, sep)[0]] + SplitAll(t, sep)[1..]
  {
    assert ([c] + t)[0] == c;
    assert ([c] + t)[1..] == t;
  }

  /** A string without the separator is a single piece. */
  lemma {:induction false} SplitAllNoSep(w: string, sep: char)
    requires sep !in w
    ensures SplitAll(w, sep) == [w]
  {
    if w != [] {
      SplitAllNoSep(w[1..], sep);
      assert [w[0]] + w[1..] == w;
    }
  }

  /** `n` copies of `c`. */
  function Repeat<T>(c: T, n: nat): (r: seq<T>)
    ensures |r| == n && forall i :: 0 <= i < n ==> r[i] == c
  {
    if n == 0 then [] else [c] + Repeat(c, n - 1)
  }

  /** A word followed by `n` separators splits into the word and `n` empty pieces. */
  lemma {:induction false} SplitAllTrailing(w: string, sep: char, n: nat)
    requires sep !in w
    ensures SplitAll(w + Repeat(sep, n), sep) == [w] + Repeat([], n)
  {
    if n == 0 {
      assert w + Repeat(sep, 0) == w;
      SplitAllNoSep(w, sep);
    } else {
      assert w + Repeat(sep, n) == w + [sep] + Repeat(sep, n - 1);
      SplitAllAppend(w, Repeat(sep, n - 1), sep);
      SplitAllNoSep(w, sep);
      SplitAllSeparators(sep, n - 1);
    }
  }

  /** `n` separators alone split into `n + 1` empty pieces. */
  lemma {:induction false} SplitAllSeparators(sep: char, n: nat)
    ensures SplitAll(Repeat(sep, n), sep) == Repeat([], n + 1)
  {
    if n > 0 {
      SplitAllSeparators(sep, n - 1);
      assert Repeat(sep, n)[1..] == Repeat(sep, n - 1);
    }
  }

  /** Ruby drops the empty pieces at the end of a split, and only those. */
  function DropTrailingEmpty(parts: seq<string>): (r: seq<string>)
    ensures |r| <= |parts|
  {
    if parts == [] || parts[|parts| - 1] != [] then parts
    else DropTrailingEmpty(parts[..|parts| - 1])
  }

  /** What is kept is a prefix ending in a non-empty piece, and everything after it is empty. */
  lemma {:induction false} DropTrailingEmptySpec(parts: seq<string>)
    ensures DropTrailingEmpty(parts) <= parts
    ensures DropTrailingEmpty(parts) == [] || DropTrailingEmpty(parts)[|DropTrailingEmpty(parts)| - 1] != []
    ensures forall k :: |DropTrailingEmpty(parts)| <= k < |parts| ==> parts[k] == []
  {
    if parts != [] && parts[|parts| - 1] == [] {
      DropTrailingEmptySpec(parts[..|parts| - 1]);
    }
  }

  /** Pieces that end in a non-empty one survive the dropping of trailing empty pieces. */
  lemma {:induction false} DropTrailingEmptyKeeps(a: seq<string>, b: seq<string>)
    requires a != [] && a[|a| - 1] != []
    ensures a <= DropTrailingEmpty(a + b)
  {
    DropTrailingEmptySpec(a + b);
    assert (a + b)[|a| - 1] == a[|a| - 1];
  }

  /** Empty pieces after a non-empty one are exactly what is dropped. */
  lemma {:induction false} DropTrailingEmptyOf(a: seq<string>, n: nat)
    requires a != [] && a[|a| - 1] != []
    ensures DropTrailingEmpty(a + Repeat([], n)) == a
  {
    DropTrailingEmptySpec(a + Repeat([], n));
    DropTrailingEmptyKeeps(a, Repeat([], n));
  }

  /** `s.split(sep)` for a one-character separator other than a space:
      the pieces between separators, with the trailing empty ones dropped. */
  function Split(s: string, sep: char): (r: seq<string>)
    ensures r <= SplitAll(s, sep)
    ensures r == [] || r[|r| - 1] != []
  {
    DropTrailingEmptySpec(SplitAll(s, sep));
    DropTrailingEmpty(SplitAll(s, sep))
  }

  /** No piece of a split holds the separator, and the last piece is not empty. */
  lemma {:induction false} SplitPieces(s: string, sep: char)
    ensures forall k :: 0 <= k < |Split(s, sep)| ==> sep !in Split(s, sep)[k]
    ensures Split(s, sep) == [] || Split(s, sep)[|Split(s, sep)| - 1] != []
  {
    SplitAllPieces(s, sep);
    DropTrailingEmptySpec(SplitAll(s, sep));
  }

  /** A split has no pieces exactly when the string is made of separators only. */
  lemma {:induction false} OnlySeparators(s: string, sep: char)
    ensures Split(s, sep) == [] <==> forall i :: 0 <= i < |s| ==> s[i] == sep
  {
    var all := SplitAll(s, sep);
    DropTrailingEmptySpec(all);
    if Split(s, sep) == [] {
      JoinSplitAll(s, sep);
      JoinEmpty(all, sep);
    }
    if forall i :: 0 <= i < |s| ==> s[i] == sep {
      assert s == Repeat(sep, |s|);
      SplitAllSeparators(sep, |s|);
      assert forall k :: 0 <= k < |all| ==> all[k] == [];
    }
  }

  // ---------------------------------------------------------------------------
  // split with no argument: whitespace-separated fields

  /** The characters Ruby's whitespace split treats as separators. */
  predicate IsSpace(c: char) {
    c == ' ' || c == '\t' || c == '\n' || c == '\r' || c as int == 11 || c as int == 12
  }

  /** `s` with its leading whitespace removed. */
  function SkipSpaces(s: string): (r: string)
    ensures |r| <= |s|
  {
    if s != [] && IsSpace(s[0]) then SkipSpaces(s[1..]) else s
  }

  /** The longest prefix of `s` without whitespace. */
  function Word(s: string): (r: string)
    ensures |r| <= |s|
  {
    if s == [] || IsSpace(s[0]) then [] else [s[0]] + Word(s[1..])
  }

  /** `line.split()[0]`: the first whitespace-delimited field of `line`, `None` when it has none. */
  function FirstField(line: string): (r: Option<string>)
    ensures r.None? <==> SkipSpaces(line) == []
    ensures r.Some? ==>
              r.value != [] && r.value <= SkipSpaces(line) &&
              (|r.value| == |SkipSpaces(line)| || IsSpace(SkipSpaces(line)[|r.value|]))
    ensures r.Some? ==> forall i :: 0 <= i < |r.value| ==> !IsSpace(r.value[i])
  {
    var t := SkipSpaces(line);
    SkipSpacesSpec(line);
    WordSpec(t);
    if t == [] then None else Some(Word(t))
  }

  /** What is skipped is whitespace, and what is left is empty or starts with a non-space. */
  lemma {:induction false} SkipSpacesSpec(s: string)
    ensures SkipSpaces(s) == s[|s| - |SkipSpaces(s)|..]
    ensures forall i :: 0 <= i < |s| - |SkipSpaces(s)| ==> IsSpace(s[i])
    ensures SkipSpaces(s) == [] || !IsSpace(SkipSpaces(s)[0])
  {
    if s != [] && IsSpace(s[0]) {
      SkipSpacesSpec(s[1..]);
    }
  }

  /** A word is a non-space prefix that stops at whitespace or at the end. */
  lemma {:induction false} WordSpec(s: string)
    ensures Word(s) <= s
    ensures forall i :: 0 <= i < |Word(s)| ==> !IsSpace(Word(s)[i])
    ensures |Word(s)| == |s| || IsSpace(s[|Word(s)|])
  {
    if s != [] && !IsSpace(s[0]) {
      WordSpec(s[1..]);
    }
  }

  /** A line has no first field exactly when it is all whitespace; a field is non-empty and has no whitespace. */
  lemma {:induction false} FirstFieldSpec(line: string)
    ensures FirstField(line).None? <==> forall i :: 0 <= i < |line| ==> IsSpace(line[i])
    ensures FirstField(line).Some? ==>
              FirstField(line).value != [] && forall i :: 0 <= i < |FirstField(line).value| ==> !IsSpace(FirstField(line).value[i])
  {
    var t := SkipSpaces(line);
    SkipSpacesSpec(line);
    if t != [] {
      WordSpec(t);
      assert !IsSpace(line[|line| - |t|]);
    }
  }

  lemma {:induction false} SkipSpacesOf(lead: string, s: string)
    requires forall i :: 0 <= i < |lead| ==> IsSpace(lead[i])
    requires s == [] || !IsSpace(s[0])
    ensures SkipSpaces(lead + s) == s
  {
    if lead != [] {
      assert (lead + s)[1..] == lead[1..] + s;
      SkipSpacesOf(lead[1..], s);
    }
  }

  lemma {:induction false} WordOf(w: string, rest: string)
    requires forall i :: 0 <= i < |w| ==> !IsSpace(w[i])
    requires rest == [] || IsSpace(rest[0])
    ensures Word(w + rest) == w
  {
    if w != [] {
      assert (w + rest)[1..] == w[1..] + rest;
      WordOf(w[1..], rest);
      assert [w[0]] + w[1..] == w;
    }
  }

  /** A line made of whitespace, a field and then whitespace or nothing has that field first. */
  lemma {:induction false} FirstFieldOf(lead: string, w: string, rest: string)
    requires forall i :: 0 <= i < |lead| ==> IsSpace(lead[i])
    requires w != [] && forall i :: 0 <= i < |w| ==> !IsSpace(w[i])
    requires rest == [] || IsSpace(rest[0])
    ensures FirstField(lead + w + rest) == Some(w)
  {
    assert lead + w + rest == lead + (w + rest);
    SkipSpacesOf(lead, w + rest);
    WordOf(w, rest);
  }

  // ---------------------------------------------------------------------------
  // Integer#to_s

  function Digit(d: nat): (c: char)
    requires d < 10
    ensures '0' <= c <= '9' && c as int - '0' as int == d
  {
    ('0' as int + d) as char
  }

  /** The number a string of decimal digits spells, most significant digit first. */
  function DecimalValue(s: string): int {
    if s == [] then 0 else 10 * DecimalValue(s[..|s| - 1]) + (s[|s| - 1] as int - '0' as int)
  }

  /** `n.to_s` for a non-negative integer: its decimal digits, most significant first,
      with no leading zero. */
  function Decimal(n: nat): (r: string)
    ensures |r| >= 1
    ensures |r| == 1 <==> n < 10
    ensures forall i :: 0 <= i < |r| ==> '0' <= r[i] <= '9'
    ensures DecimalValue(r) == n
    ensures r[0] == '0' <==> n == 0
  {
    if n < 10 then [Digit(n)]
    else
      var d := Decimal(n / 10);
      var r := d + [Digit(n % 10)];
      assert r[..|r| - 1] == d;
      r
  }

  /** Different numbers print differently. */
  lemma {:induction false} DecimalInjective(a: nat, b: nat)
    requires Decimal(a) == Decimal(b)
    ensures a == b
  {
    assert DecimalValue(Decimal(a)) == DecimalValue(Decimal(b));
  }
}
