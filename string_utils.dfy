/** Python-style string helpers: slicing with negative indices, ASCII case mapping,
    whitespace stripping, padding, substring replacement, splitting and joining,
    tab expansion and the Levenshtein edit distance. Characters follow the C locale:
    the whitespace characters are space, tab, newline, vertical tab, form feed and
    carriage return, and only `a`-`z` and `A`-`Z` have a case. */
module StringUtils {
  import opened Wrappers

  // ---------------------------------------------------------------------------
  // Characters

  const Tab: char := '\t'

  /** `isspace` in the C locale. */
  predicate IsSpace(c: char)
  {
    c == ' ' || c == '\t' || c == '\n' || c == '\U{000B}' || c == '\U{000C}' || c == '\r'
  }

  predicate IsLowerLetter(c: char)
  {
    'a' <= c <= 'z'
  }

  predicate IsUpperLetter(c: char)
  {
    'A' <= c <= 'Z'
  }

  /** `toupper` in the C locale. */
  function ToUpper(c: char): (u: char)
    ensures IsLowerLetter(c) ==> IsUpperLetter(u) && u as int == c as int - 32
    ensures !IsLowerLetter(c) ==> u == c
    ensures !IsLowerLetter(u)
  {
    if IsLowerLetter(c) then (c as int - 32) as char else c
  }

  /** `tolower` in the C locale. */
  function ToLower(c: char): (l: char)
    ensures IsUpperLetter(c) ==> IsLowerLetter(l) && l as int == c as int + 32
    ensures !IsUpperLetter(c) ==> l == c
    ensures !IsUpperLetter(l)
  {
    if IsUpperLetter(c) then (c as int + 32) as char else c
  }

  /** Upper-casing after lower-casing, or the other way round, forgets the first mapping. */
  lemma CaseRoundTrip(c: char)
    ensures ToLower(ToUpper(c)) == ToLower(c)
    ensures ToUpper(ToLower(c)) == ToUpper(c)
    ensures ToUpper(ToUpper(c)) == ToUpper(c) && ToLower(ToLower(c)) == ToLower(c)
  {
  }

  // ---------------------------------------------------------------------------
  // Slice

  /** Where a Python-style index lands in a string of length `len`: a negative index
      counts from the end, and the result is clamped to [0, len]. */
  function ClampIndex(len: nat, index: int): (k: nat)
    ensures k <= len
    ensures 0 <= index <= len ==> k == index
    ensures index < 0 && 0 <= len + index ==> k == len + index
    ensures index > len ==> k == len
    ensures len + index < 0 ==> k == 0
  {
    var i := if index < 0 then len + index else index;
    if i < 0 then 0 else if i > len then len else i
  }

  /** The characters of `str` from `start` up to but not including `end`; negative
      indices count from the end, an `end` of 0 stands for the whole length, and an
      empty range gives the empty string. */
  function Slice(str: string, start: int, end: int): (r: string)
    ensures var b, e := ClampIndex(|str|, start), if end == 0 then |str| else ClampIndex(|str|, end);
            if b >= e then r == [] else |r| == e - b && forall i :: 0 <= i < |r| ==> r[i] == str[b + i]
  {
    var len := |str|;
    var b := ClampIndex(len, start);
    var e := if end == 0 then len else ClampIndex(len, end);
    if b >= e then [] else str[b..e]
  }

  /** A string splits at any positive index into the slice before it and the slice
      from it. At index 0 it does not: an `end` of 0 means the whole string, so
      `Slice(str, 0, 0)` is `str` itself. */
  lemma SliceSplit(str: string, k: nat)
    requires 0 < k <= |str|
    ensures Slice(str, 0, k) + Slice(str, k, 0) == str
    ensures Slice(str, 0, 0) == str
  {
    assert str[0..|str|] == str;
    if k == |str| {
      assert Slice(str, 0, k) == str[0..k];
    } else {
      assert Slice(str, 0, k) == str[..k];
      assert Slice(str, k, 0) == str[k..];
    }
  }

  /** A negative index means the same as that many characters from the end. */
  lemma SliceNegative(str: string, k: nat, end: int)
    requires 0 < k <= |str|
    ensures Slice(str, -(k as int), end) == Slice(str, |str| - k, end)
  {
  }

  /** The slicing fixtures of the utility tests with a positive end. */
  lemma SliceExamples()
    ensures Slice("ponyo", 0, 3) == "pon"
    ensures Slice("cleave", 2, 4) == "ea"
  {
  }

  /** The slicing fixtures of the utility tests with a negative end. */
  lemma SliceNegativeEndExamples()
    ensures Slice("snake plant", 1, -1) == "nake plan"
    ensures Slice("monstera", -3, -1) == "er"
  {
  }

  /** The slicing fixtures of the utility tests that leave the end at its default, 0. */
  lemma SliceToEndExamples()
    ensures Slice("", 0, 0) == ""
    ensures Slice("unlimited void", 0, 0) == "unlimited void"
    ensures Slice("paladin", 3, 0) == "adin"
    ensures Slice("shanty", -2, 0) == "ty"
    ensures Slice("aggie", -5, 0) == "aggie"
  {
  }

  // ---------------------------------------------------------------------------
  // Case mapping

  /** Every character upper-cased. */
  function Uppercased(s: string): (r: string)
    ensures |r| == |s| && forall i :: 0 <= i < |s| ==> r[i] == ToUpper(s[i])
  {
    seq(|s|, i requires 0 <= i < |s| => ToUpper(s[i]))
  }

  /** Every character lower-cased. */
  function Lowercased(s: string): (r: string)
    ensures |r| == |s| && forall i :: 0 <= i < |s| ==> r[i] == ToLower(s[i])
  {
    seq(|s|, i requires 0 <= i < |s| => ToLower(s[i]))
  }

  /** The first character upper-cased and every other one lower-cased. */
  function Capitalized(s: string): (r: string)
    ensures |r| == |s|
    ensures s != [] ==> r[0] == ToUpper(s[0])
    ensures forall i :: 1 <= i < |s| ==> r[i] == ToLower(s[i])
  {
    if s == [] then [] else [ToUpper(s[0])] + Lowercased(s[1..])
  }

  /** Upper-cases a copy of the string in place, one character at a time. */
  method Upper(str: string) returns (result: string)
    ensures result == Uppercased(str)
  {
    result := str;
    var i := 0;
    while i < |result|
      invariant i <= |result| == |str|
      invariant forall k :: 0 <= k < i ==> result[k] == ToUpper(str[k])
      invariant forall k :: i <= k < |str| ==> result[k] == str[k]
    {
      result := result[i := ToUpper(result[i])];
      i := i + 1;
    }
  }

  /** Lower-cases a copy of the string in place, one character at a time. */
  method Lower(str: string) returns (result: string)
    ensures result == Lowercased(str)
  {
    result := str;
    var i := 0;
    while i < |result|
      invariant i <= |result| == |str|
      invariant forall k :: 0 <= k < i ==> result[k] == ToLower(str[k])
      invariant forall k :: i <= k < |str| ==> result[k] == str[k]
    {
      result := result[i := ToLower(result[i])];
      i := i + 1;
    }
  }

  /** Upper-cases the first character of a copy and lower-cases the rest in place. */
  method Capitalize(str: string) returns (result: string)
    ensures result == Capitalized(str)
  {
    result := str;
    if |result| > 0 {
      result := result[0 := ToUpper(result[0])];
      var i := 1;
      while i < |result|
        invariant 1 <= i <= |result| == |str|
        invariant result[0] == ToUpper(str[0])
        invariant forall k :: 1 <= k < i ==> result[k] == ToLower(str[k])
        invariant forall k :: i <= k < |str| ==> result[k] == str[k]
      {
        result := result[i := ToLower(result[i])];
        i := i + 1;
      }
    }
  }

  /** Lower-casing an upper-cased string is lower-casing it, and each mapping is
      idempotent. */
  lemma CaseMappings(s: string)
    ensures Lowercased(Uppercased(s)) == Lowercased(s)
    ensures Uppercased(Lowercased(s)) == Uppercased(s)
    ensures Uppercased(Uppercased(s)) == Uppercased(s)
    ensures Lowercased(Lowercased(s)) == Lowercased(s)
  {
    forall i | 0 <= i < |s|
      ensures Lowercased(Uppercased(s))[i] == Lowercased(s)[i]
      ensures Uppercased(Lowercased(s))[i] == Uppercased(s)[i]
      ensures Uppercased(Uppercased(s))[i] == Uppercased(s)[i]
      ensures Lowercased(Lowercased(s))[i] == Lowercased(s)[i]
    {
      CaseRoundTrip(s[i]);
    }
  }

  /** Capitalizing twice is capitalizing once, and capitalizing ignores the case the
      string had. */
  lemma CapitalizeIdempotent(s: string)
    ensures Capitalized(Capitalized(s)) == Capitalized(s)
    ensures Capitalized(Lowercased(s)) == Capitalized(s)
    ensures Capitalized(Uppercased(s)) == Capitalized(s)
  {
    var c := Capitalized(s);
    forall i | 0 <= i < |s|
      ensures Capitalized(c)[i] == c[i]
      ensures Capitalized(Lowercased(s))[i] == c[i]
      ensures Capitalized(Uppercased(s))[i] == c[i]
    {
      CaseRoundTrip(s[i]);
      if i == 0 {
        assert ToUpper(ToUpper(s[0])) == ToUpper(s[0]);
      }
    }
  }

  // ---------------------------------------------------------------------------
  // Stripping

  /** The string without its leading whitespace. */
  function TrimLeft(s: string): (r: string)
    decreases |s|
  {
    if s != [] && IsSpace(s[0]) then TrimLeft(s[1..]) else s
  }

  /** The string without its trailing whitespace. */
  function TrimRight(s: string): (r: string)
    decreases |s|
  {
    if s != [] && IsSpace(s[|s| - 1]) then TrimRight(s[..|s| - 1]) else s
  }

  /** TrimLeft removes exactly the leading whitespace: what it returns is a suffix
      whose first character, if any, is not whitespace, and what it drops is all
      whitespace. */
  lemma {:induction false} TrimLeftSpec(s: string)
    ensures var r := TrimLeft(s);
            |r| <= |s| && r == s[|s| - |r|..] &&
            (forall i :: 0 <= i < |s| - |r| ==> IsSpace(s[i])) &&
            (r != [] ==> !IsSpace(r[0]))
    decreases |s|
  {
    if s != [] && IsSpace(s[0]) {
      TrimLeftSpec(s[1..]);
    }
  }

  /** TrimRight removes exactly the trailing whitespace. */
  lemma {:induction false} TrimRightSpec(s: string)
    ensures var r := TrimRight(s);
            |r| <= |s| && r == s[..|r|] &&
            (forall i :: |r| <= i < |s| ==> IsSpace(s[i])) &&
            (r != [] ==> !IsSpace(r[|r| - 1]))
    decreases |s|
  {
    if s != [] && IsSpace(s[|s| - 1]) {
      TrimRightSpec(s[..|s| - 1]);
    }
  }

  /** Appending whitespace-free text after a non-space keeps TrimLeft's cut. */
  lemma {:induction false} TrimLeftAppend(s: string, t: string)
    requires TrimLeft(s) != []
    ensures TrimLeft(s + t) == TrimLeft(s) + t
    decreases |s|
  {
    if s != [] && IsSpace(s[0]) {
      assert (s + t)[1..] == s[1..] + t;
      TrimLeftAppend(s[1..], t);
    }
  }

  /** TrimRight of a string with one more character in front. */
  lemma {:induction false} TrimRightCons(c: char, t: string)
    ensures TrimRight([c] + t) == if TrimRight(t) != [] then [c] + TrimRight(t)
                                  else if IsSpace(c) then [] else [c]
    decreases |t|
  {
    var s := [c] + t;
    if t == [] {
      assert s == [c];
      assert s[..0] == [];
    } else if IsSpace(t[|t| - 1]) {
      assert s[..|s| - 1] == [c] + t[..|t| - 1];
      TrimRightCons(c, t[..|t| - 1]);
    }
  }

  /** Stripping either end first gives the same result. */
  lemma {:induction false} TrimsCommute(s: string)
    ensures TrimLeft(TrimRight(s)) == TrimRight(TrimLeft(s))
    decreases |s|
  {
    if s != [] {
      var c, t := s[0], s[1..];
      assert s == [c] + t;
      TrimRightCons(c, t);
      if IsSpace(c) {
        TrimsCommute(t);
        if TrimRight(t) != [] {
          assert ([c] + TrimRight(t))[1..] == TrimRight(t);
        }
      }
    }
  }

  /** Advances an index over the leading whitespace and returns the rest. */
  method LStrip(str: string) returns (result: string)
    ensures result == TrimLeft(str)
  {
    var start := 0;
    while start < |str| && IsSpace(str[start])
      invariant start <= |str|
      invariant TrimLeft(str[start..]) == TrimLeft(str)
    {
      assert str[start..][1..] == str[start + 1..];
      start := start + 1;
    }
    result := str[start..];
  }

  /** Moves an index back over the trailing whitespace, stopping at the first
      character, and returns everything up to it. */
  method RStrip(str: string) returns (result: string)
    ensures result == TrimRight(str)
  {
    if |str| == 0 {
      return [];
    }
    var end := |str| - 1;
    assert str[..end + 1] == str;
    while end > 0 && IsSpace(str[end])
      invariant 0 <= end < |str|
      invariant TrimRight(str[..end + 1]) == TrimRight(str)
    {
      assert str[..end + 1][..end] == str[..end];
      end := end - 1;
    }
    if IsSpace(str[end]) {
      assert str[..1][..0] == [];
      return [];
    }
    result := str[..end + 1];
  }

  /** Strips trailing, then leading whitespace. */
  method Strip(str: string) returns (result: string)
    ensures result == TrimLeft(TrimRight(str))
  {
    var right := RStrip(str);
    result := LStrip(right);
  }

  /** What Strip keeps: the part of the input from its first to its last
      non-whitespace character, with everything before and after it whitespace. */
  lemma StripSpec(s: string)
    ensures var r := TrimLeft(TrimRight(s));
            var start := |s| - |TrimLeft(s)|;
            0 <= start && start + |r| <= |s| && r == s[start..start + |r|] &&
            (forall k :: 0 <= k < start ==> IsSpace(s[k])) &&
            (forall k :: start + |r| <= k < |s| ==> IsSpace(s[k]))
  {
    var l, r := TrimLeft(s), TrimLeft(TrimRight(s));
    assert |l| <= |s| && l == s[|s| - |l|..] && forall k :: 0 <= k < |s| - |l| ==> IsSpace(s[k]) by {
      TrimLeftSpec(s);
    }
    assert |r| <= |l| && r == l[..|r|] && forall i :: |r| <= i < |l| ==> IsSpace(l[i]) by {
      TrimsCommute(s);
      TrimRightSpec(l);
    }
    StripShape(s, l, r);
  }

  /** A stripped string neither starts nor ends with whitespace, so an all-whitespace
      input strips to the empty string. */
  lemma StripEnds(s: string)
    ensures var r := TrimLeft(TrimRight(s));
            r != [] ==> !IsSpace(r[0]) && !IsSpace(r[|r| - 1])
    ensures (forall k :: 0 <= k < |s| ==> IsSpace(s[k])) ==> TrimLeft(TrimRight(s)) == []
  {
    var r := TrimLeft(TrimRight(s));
    assert r != [] ==> !IsSpace(r[0]) by {
      TrimLeftSpec(TrimRight(s));
    }
    assert r != [] ==> !IsSpace(r[|r| - 1]) by {
      TrimsCommute(s);
      TrimRightSpec(TrimLeft(s));
    }
    if r != [] {
      StripSpec(s);
      assert r[0] == s[|s| - |TrimLeft(s)|];
    }
  }

  /** The shape of a stripped string, from the facts about the two trims. */
  lemma StripShape(s: string, l: string, r: string)
    requires |l| <= |s| && l == s[|s| - |l|..]
    requires forall k :: 0 <= k < |s| - |l| ==> IsSpace(s[k])
    requires |r| <= |l| && r == l[..|r|]
    requires forall i :: |r| <= i < |l| ==> IsSpace(l[i])
    ensures var start := |s| - |l|;
            start + |r| <= |s| && r == s[start..start + |r|] &&
            forall k :: start + |r| <= k < |s| ==> IsSpace(s[k])
  {
    var start := |s| - |l|;
    forall k | start + |r| <= k < |s| ensures IsSpace(s[k]) {
      assert s[k] == l[k - start];
    }
  }

  // ---------------------------------------------------------------------------
  // Padding

  /** `n` copies of `c`. */
  function Fill(n: int, c: char): (r: string)
    ensures |r| == if n < 0 then 0 else n
    ensures forall i :: 0 <= i < |r| ==> r[i] == c
  {
    if n <= 0 then [] else seq(n, _ => c)
  }

  /** `str` followed by fill characters up to `width`; unchanged when already as wide. */
  function LJust(str: string, width: int, fill: char): (r: string)
    ensures |str| >= width ==> r == str
    ensures |str| < width ==> |r| == width && r[..|str|] == str &&
                              forall i :: |str| <= i < width ==> r[i] == fill
  {
    if |str| >= width then str else str + Fill(width - |str|, fill)
  }

  /** Fill characters up to `width`, then `str`; unchanged when already as wide. */
  function RJust(str: string, width: int, fill: char): (r: string)
    ensures |str| >= width ==> r == str
    ensures |str| < width ==> |r| == width && r[width - |str|..] == str &&
                              forall i :: 0 <= i < width - |str| ==> r[i] == fill
  {
    if |str| >= width then str else Fill(width - |str|, fill) + str
  }

  /** `str` centred in `width` fill characters; an odd surplus goes on the right;
      unchanged when already as wide. */
  function Center(str: string, width: int, fill: char): (r: string)
    ensures |str| >= width ==> r == str
    ensures |str| < width ==>
              var left := (width - |str|) / 2;
              |r| == width && r[left..left + |str|] == str &&
              (forall i :: 0 <= i < left ==> r[i] == fill) &&
              (forall i :: left + |str| <= i < width ==> r[i] == fill)
  {
    if |str| >= width then str
    else
      var total := width - |str|;
      var left := total / 2;
      Fill(left, fill) + str + Fill(total - left, fill)
  }

  /** Centring leaves as much fill on the right as on the left, or one more. */
  lemma CenterBalance(str: string, width: int, fill: char)
    requires |str| < width
    ensures var left := (width - |str|) / 2;
            var right := width - |str| - left;
            right == left || right == left + 1
  {
  }

  /** Padding with spaces is undone by stripping the padded side, as long as the
      padded string does not itself end in whitespace on that side. */
  lemma PaddingStrips(str: string, width: int)
    requires str != [] && !IsSpace(str[0]) && !IsSpace(str[|str| - 1])
    ensures TrimRight(LJust(str, width, ' ')) == str
    ensures TrimLeft(RJust(str, width, ' ')) == str
    ensures TrimLeft(TrimRight(Center(str, width, ' '))) == str
  {
    if |str| < width {
      var total := width - |str|;
      TrimRightFill(str, total);
      TrimLeftFill(str, total);
      CenterStrips(str, width);
    } else {
      assert TrimRight(str) == str;
      assert TrimLeft(str) == str;
    }
  }

  /** The centred case of PaddingStrips: both fills come off. */
  lemma CenterStrips(str: string, width: int)
    requires str != [] && !IsSpace(str[0]) && !IsSpace(str[|str| - 1])
    requires |str| < width
    ensures TrimLeft(TrimRight(Center(str, width, ' '))) == str
  {
    var total := width - |str|;
    var left := total / 2;
    TrimRightFill(Fill(left, ' ') + str, total - left);
    assert Fill(left, ' ') + str + Fill(total - left, ' ') == Center(str, width, ' ');
    TrimLeftFill(str, left);
  }

  /** Trailing spaces after a non-space are exactly what TrimRight removes. */
  lemma {:induction false} TrimRightFill(s: string, n: nat)
    requires s != [] && !IsSpace(s[|s| - 1])
    ensures TrimRight(s + Fill(n, ' ')) == s
    decreases n
  {
    if n == 0 {
      assert s + Fill(n, ' ') == s;
    } else {
      var t := s + Fill(n, ' ');
      assert t[..|t| - 1] == s + Fill(n - 1, ' ');
      TrimRightFill(s, n - 1);
    }
  }

  /** Leading spaces before a non-space are exactly what TrimLeft removes. */
  lemma {:induction false} TrimLeftFill(s: string, n: nat)
    requires s != [] && !IsSpace(s[0])
    ensures TrimLeft(Fill(n, ' ') + s) == s
    decreases n
  {
    if n == 0 {
      assert Fill(n, ' ') + s == s;
    } else {
      var t := Fill(n, ' ') + s;
      assert t[1..] == Fill(n - 1, ' ') + s;
      TrimLeftFill(s, n - 1);
    }
  }

  // ---------------------------------------------------------------------------
  // Searching

  /** `pat` matches `s` at `i` from its `k`-th character on, compared one character
      at a time. */
  predicate MatchesFrom(s: string, pat: string, i: nat, k: nat)
    requires i + |pat| <= |s|
    decreases |pat| - k
  {
    k >= |pat| || (s[i + k] == pat[k] && MatchesFrom(s, pat, i, k + 1))
  }

  /** `pat` occurs in `s` starting at position `i`. */
  predicate OccursAt(s: string, pat: string, i: nat)
  {
    i + |pat| <= |s| && MatchesFrom(s, pat, i, 0)
  }

  lemma {:induction false} MatchesFromSpec(s: string, pat: string, i: nat, k: nat)
    requires i + |pat| <= |s|
    ensures MatchesFrom(s, pat, i, k) <==> forall t :: k <= t < |pat| ==> s[i + t] == pat[t]
    decreases |pat| - k
  {
    if k < |pat| {
      MatchesFromSpec(s, pat, i, k + 1);
    }
  }

  /** The occurrence test is the comparison of a slice with `pat`. */
  lemma OccursAtSlice(s: string, pat: string, i: nat)
    ensures OccursAt(s, pat, i) <==> i + |pat| <= |s| && s[i..i + |pat|] == pat
  {
    if i + |pat| <= |s| {
      MatchesFromSpec(s, pat, i, 0);
      var slice := s[i..i + |pat|];
      assert forall t :: 0 <= t < |pat| ==> slice[t] == s[i + t];
    }
  }

  /** The first position at or after `from` where `pat` occurs in `s`, as
      `std::string::find` returns it, or None for `npos`. */
  function Find(s: string, pat: string, from: nat): (r: Option<nat>)
    ensures r.Some? ==> from <= r.value && r.value + |pat| <= |s|
    decreases |s| - from
  {
    if from + |pat| > |s| then None
    else if OccursAt(s, pat, from) then Some(from)
    else Find(s, pat, from + 1)
  }

  /** Find returns the first occurrence at or after `from`, and None exactly when
      there is none. */
  lemma {:induction false} FindSpec(s: string, pat: string, from: nat)
    ensures var r := Find(s, pat, from);
            (r.Some? ==> from <= r.value && OccursAt(s, pat, r.value)) &&
            (r.Some? ==> forall j :: from <= j < r.value ==> !OccursAt(s, pat, j)) &&
            (r.None? ==> forall j :: from <= j ==> !OccursAt(s, pat, j))
    decreases |s| - from
  {
    if from + |pat| <= |s| && !OccursAt(s, pat, from) {
      FindSpec(s, pat, from + 1);
    }
  }

  /** Whether `pat` occurs depends only on the text from the position on. */
  lemma OccursShift(a: string, i: nat, b: string, j: nat, pat: string)
    requires i <= |a| && j <= |b| && a[i..] == b[j..]
    ensures OccursAt(a, pat, i) <==> OccursAt(b, pat, j)
  {
    assert |a| - i == |b| - j;
    if i + |pat| <= |a| {
      MatchesFromSpec(a, pat, i, 0);
      MatchesFromSpec(b, pat, j, 0);
      forall t | 0 <= t < |pat| ensures a[i + t] == pat[t] <==> b[j + t] == pat[t] {
        assert a[i + t] == a[i..][t] && b[j + t] == b[j..][t];
      }
    }
  }

  /** Searching two strings that agree from `i` and `j` on finds the same match,
      shifted by the difference of the starting points. */
  lemma {:induction false} FindShift(a: string, i: nat, b: string, j: nat, pat: string)
    requires i <= |a| && j <= |b| && a[i..] == b[j..]
    ensures Find(a, pat, i).None? <==> Find(b, pat, j).None?
    ensures Find(a, pat, i).Some? ==> Find(a, pat, i).value - i == Find(b, pat, j).value - j
    decreases |a| - i
  {
    assert |a| - i == |b| - j;
    if i + |pat| <= |a| {
      OccursShift(a, i, b, j, pat);
      if !OccursAt(a, pat, i) {
        assert a[i + 1..] == a[i..][1..];
        assert b[j + 1..] == b[j..][1..];
        FindShift(a, i + 1, b, j + 1, pat);
      }
    }
  }

  /** An occurrence inside a substring is an occurrence in the whole string. */
  lemma OccursInside(s: string, lo: nat, hi: nat, pat: string, j: nat)
    requires lo <= hi <= |s| && OccursAt(s[lo..hi], pat, j)
    ensures OccursAt(s, pat, lo + j)
  {
    MatchesFromSpec(s[lo..hi], pat, j, 0);
    MatchesFromSpec(s, pat, lo + j, 0);
    forall t | 0 <= t < |pat| ensures s[lo + j + t] == pat[t] {
      assert s[lo + j + t] == s[lo..hi][j + t];
    }
  }

  // ---------------------------------------------------------------------------
  // Replace

  /** The replacement loop as the source runs it: find `pat` from `pos` in the
      current string, splice `rep` in its place and resume just after `rep`. */
  function ReplaceScan(result: string, pat: string, rep: string, pos: nat): string
    requires pat != [] && pos <= |result|
    decreases |result| - pos
  {
    match Find(result, pat, pos)
    case None => result
    case Some(q) => ReplaceScan(result[..q] + rep + result[q + |pat|..], pat, rep, q + |rep|)
  }

  /** Replace's result: the input itself when `pat` is empty. */
  function ReplaceAll(s: string, pat: string, rep: string): string
  {
    if pat == [] then s else ReplaceScan(s, pat, rep, 0)
  }

  /** One turn of the replacement loop. */
  lemma ReplaceScanStep(result: string, pat: string, rep: string, pos: nat, q: nat, next: string)
    requires pat != [] && pos <= |result| && Find(result, pat, pos) == Some(q)
    requires next == result[..q] + rep + result[q + |pat|..]
    ensures q + |rep| <= |next|
    ensures ReplaceScan(result, pat, rep, pos) == ReplaceScan(next, pat, rep, q + |rep|)
  {
  }

  /** Replaces every occurrence of `pat` from the left, in place, resuming the search
      just after the inserted text so that it is never rescanned. */
  method Replace(str: string, pat: string, rep: string) returns (result: string)
    ensures result == ReplaceAll(str, pat, rep)
  {
    if |pat| == 0 {
      return str;
    }
    result := str;
    var pos: nat := 0;
    ghost var goal := ReplaceScan(str, pat, rep, 0);
    var found := Find(result, pat, pos);
    while found.Some?
      invariant pos <= |result|
      invariant ReplaceScan(result, pat, rep, pos) == goal
      invariant found == Find(result, pat, pos)
      decreases |result| - pos
    {
      var q := found.value;
      ReplaceScanStep(result, pat, rep, pos, q, result[..q] + rep + result[q + |pat|..]);
      result := result[..q] + rep + result[q + |pat|..];
      pos := q + |rep|;
      found := Find(result, pat, pos);
    }
  }

  // ---------------------------------------------------------------------------
  // Join

  /** The parts with `sep` between each neighbouring pair. */
  function JoinOf(sep: string, parts: seq<string>): string
  {
    if parts == [] then []
    else if |parts| == 1 then parts[0]
    else JoinOf(sep, parts[..|parts| - 1]) + sep + parts[|parts| - 1]
  }

  /** Starts from the first part and appends the separator and the next part in turn. */
  method Join(str: string, vect: seq<string>) returns (result: string)
    ensures result == JoinOf(str, vect)
  {
    if |vect| == 0 {
      return [];
    }
    result := vect[0];
    var i := 1;
    assert vect[..1] == [vect[0]];
    while i < |vect|
      invariant 1 <= i <= |vect|
      invariant result == JoinOf(str, vect[..i])
    {
      assert vect[..i + 1][..i] == vect[..i];
      result := result + (str + vect[i]);
      i := i + 1;
    }
    assert vect[..|vect|] == vect;
  }

  /** Joining peels off the first part as well as the last. */
  lemma {:induction false} JoinCons(sep: string, first: string, rest: seq<string>)
    requires rest != []
    ensures JoinOf(sep, [first] + rest) == first + sep + JoinOf(sep, rest)
    decreases |rest|
  {
    var parts := [first] + rest;
    if |rest| > 1 {
      assert parts[..|parts| - 1] == [first] + rest[..|rest| - 1];
      JoinCons(sep, first, rest[..|rest| - 1]);
    } else {
      assert parts[..|parts| - 1] == [first];
    }
  }

  /** The joined length: every part, and the separator once between each pair. */
  lemma {:induction false} JoinLength(sep: string, parts: seq<string>)
    ensures |JoinOf(sep, parts)| == TotalLength(parts) + (if parts == [] then 0 else (|parts| - 1) * |sep|)
    decreases |parts|
  {
    if |parts| > 1 {
      JoinLength(sep, parts[..|parts| - 1]);
      TotalLengthSnoc(parts[..|parts| - 1], parts[|parts| - 1]);
      assert parts[..|parts| - 1] + [parts[|parts| - 1]] == parts;
    }
  }

  function TotalLength(parts: seq<string>): nat
  {
    if parts == [] then 0 else |parts[0]| + TotalLength(parts[1..])
  }

  lemma {:induction false} TotalLengthSnoc(parts: seq<string>, last: string)
    ensures TotalLength(parts + [last]) == TotalLength(parts) + |last|
    decreases |parts|
  {
    if parts != [] {
      assert (parts + [last])[1..] == parts[1..] + [last];
      TotalLengthSnoc(parts[1..], last);
    }
  }

  // ---------------------------------------------------------------------------
  // Split on a separator

  /** The pieces of `s` from `start` on between the occurrences of `sep`, found from
      the left; there is always one more piece than occurrences. */
  function SplitFrom(s: string, sep: string, start: nat): (parts: seq<string>)
    requires sep != [] && start <= |s|
    ensures |parts| >= 1
    decreases |s| - start
  {
    match Find(s, sep, start)
    case None => [s[start..]]
    case Some(q) => [s[start..q]] + SplitFrom(s, sep, q + |sep|)
  }

  /** Joining the pieces with the separator gives back the string. */
  lemma {:induction false} SplitJoin(s: string, sep: string, start: nat)
    requires sep != [] && start <= |s|
    ensures JoinOf(sep, SplitFrom(s, sep, start)) == s[start..]
    decreases |s| - start
  {
    match Find(s, sep, start)
    case None =>
      assert SplitFrom(s, sep, start) == [s[start..]];
    case Some(q) =>
      var rest := SplitFrom(s, sep, q + |sep|);
      assert SplitFrom(s, sep, start) == [s[start..q]] + rest;
      assert JoinOf(sep, rest) == s[q + |sep|..] by {
        SplitJoin(s, sep, q + |sep|);
      }
      assert JoinOf(sep, [s[start..q]] + rest) == s[start..q] + sep + JoinOf(sep, rest) by {
        JoinCons(sep, s[start..q], rest);
      }
      assert s[start..] == s[start..q] + sep + s[q + |sep|..] by {
        FindSpec(s, sep, start);
        OccursAtSlice(s, sep, q);
        Cut3(s, start, q, q + |sep|);
      }
  }

  lemma Cut3(s: string, a: nat, b: nat, c: nat)
    requires a <= b <= c <= |s|
    ensures s[a..] == s[a..b] + s[b..c] + s[c..]
  {
  }

  /** `sep` occurs nowhere in `piece`. */
  ghost predicate Free(piece: string, sep: string)
  {
    forall j :: !OccursAt(piece, sep, j)
  }

  /** The text between `start` and the first occurrence after it is free of `sep`;
      so is the whole rest when there is none. */
  lemma PieceFree(s: string, sep: string, start: nat, end: nat)
    requires sep != [] && start <= end <= |s|
    requires Find(s, sep, start) == Some(end) || (Find(s, sep, start).None? && end == |s|)
    ensures Free(s[start..end], sep)
  {
    FindSpec(s, sep, start);
    forall j | OccursAt(s[start..end], sep, j) ensures false {
      OccursInside(s, start, end, sep, j);
    }
  }

  /** No piece contains the separator. */
  lemma {:induction false} SplitPiecesFree(s: string, sep: string, start: nat)
    requires sep != [] && start <= |s|
    ensures forall k :: 0 <= k < |SplitFrom(s, sep, start)| ==> Free(SplitFrom(s, sep, start)[k], sep)
    decreases |s| - start
  {
    var parts := SplitFrom(s, sep, start);
    match Find(s, sep, start)
    case None =>
      assert s[start..] == s[start..|s|];
      assert parts == [s[start..|s|]];
      PieceFree(s, sep, start, |s|);
    case Some(q) =>
      var rest := SplitFrom(s, sep, q + |sep|);
      assert parts == [s[start..q]] + rest;
      PieceFree(s, sep, start, q);
      SplitPiecesFree(s, sep, q + |sep|);
      forall k | 0 < k < |parts| ensures Free(parts[k], sep) {
        assert parts[k] == rest[k - 1];
      }
  }

  /** Splicing `rep` over the occurrence at `q`: the text before it grows by `rep`
      and the text after it is unchanged. */
  lemma SpliceLayout(result: string, m: nat, rep: string, q: nat, next: string)
    requires q + m <= |result| && next == result[..q] + rep + result[q + m..]
    ensures q + |rep| <= |next|
    ensures next[..q + |rep|] == result[..q] + rep
    ensures next[q + |rep|..] == result[q + m..]
  {
  }

  /** The string one turn of the loop produces, described by where it agrees with
      the string before the turn. */
  lemma Splice(result: string, pat: string, rep: string, pos: nat, q: nat) returns (next: string)
    requires pat != [] && pos <= |result| && Find(result, pat, pos) == Some(q)
    ensures q + |pat| <= |result| && q + |rep| <= |next|
    ensures next[..q + |rep|] == result[..q] + rep && next[q + |rep|..] == result[q + |pat|..]
    ensures ReplaceScan(result, pat, rep, pos) == ReplaceScan(next, pat, rep, q + |rep|)
  {
    next := result[..q] + rep + result[q + |pat|..];
    ReplaceScanStep(result, pat, rep, pos, q, next);
    SpliceLayout(result, |pat|, rep, q, next);
  }

  /** Two strings that agree from `i` and `j` on split into the same pieces there. */
  lemma {:induction false} SplitFromShift(a: string, i: nat, b: string, j: nat, sep: string)
    requires sep != [] && i <= |a| && j <= |b| && a[i..] == b[j..]
    ensures SplitFrom(a, sep, i) == SplitFrom(b, sep, j)
    decreases |a| - i
  {
    FindShift(a, i, b, j, sep);
    match Find(a, sep, i)
    case None =>
      assert SplitFrom(a, sep, i) == [a[i..]];
      assert SplitFrom(b, sep, j) == [b[j..]];
    case Some(q) =>
      var q' := j + (q - i);
      SplitFromStep(a, sep, i, q);
      SplitFromStep(b, sep, j, q');
      AgreeingSlices(a, i, b, j, q, q + |sep|);
      SplitFromShift(a, q + |sep|, b, q' + |sep|, sep);
  }

  /** Strings that agree from `i` and `j` on agree on the matching pieces. */
  lemma AgreeingSlices(a: string, i: nat, b: string, j: nat, q: nat, r: nat)
    requires i <= q <= r <= |a| && j <= |b| && a[i..] == b[j..]
    ensures j + (r - i) <= |b|
    ensures a[i..q] == b[j..j + (q - i)]
    ensures a[r..] == b[j + (r - i)..]
  {
    assert |a| - i == |b| - j;
    assert a[i..q] == a[i..][..q - i];
    assert b[j..j + (q - i)] == b[j..][..q - i];
    assert a[r..] == a[i..][r - i..];
    assert b[j + (r - i)..] == b[j..][r - i..];
  }

  lemma JoinSame(sep: string, parts: seq<string>, parts': seq<string>)
    requires parts == parts'
    ensures JoinOf(sep, parts) == JoinOf(sep, parts')
  {
  }

  /** The loop's result after a splice, in terms of the pieces of the string before
      it: `next` agrees with `result` before the splice point `k` except for `rep`,
      and from there on with `result` after the occurrence at `q`. */
  lemma {:induction false} AfterSplice(result: string, pat: string, rep: string, q: nat, next: string, k: nat)
    requires pat != [] && q + |pat| <= |result| && k <= |next|
    requires next[..k] == result[..q] + rep && next[k..] == result[q + |pat|..]
    ensures ReplaceScan(next, pat, rep, k) == result[..q] + rep + JoinOf(rep, SplitFrom(result, pat, q + |pat|))
    decreases |next| - k + 1, 0
  {
    ReplaceScanSplit(next, pat, rep, k);
    SplitFromShift(next, k, result, q + |pat|, pat);
    JoinSame(rep, SplitFrom(next, pat, k), SplitFrom(result, pat, q + |pat|));
  }

  /** Joining the pieces from `pos` on: the first piece, `rep`, and the rest joined. */
  lemma JoinFirstPiece(result: string, pat: string, rep: string, pos: nat, q: nat)
    requires pat != [] && pos <= |result| && Find(result, pat, pos) == Some(q)
    ensures q + |pat| <= |result|
    ensures result[..pos] + JoinOf(rep, SplitFrom(result, pat, pos)) ==
            result[..q] + rep + JoinOf(rep, SplitFrom(result, pat, q + |pat|))
  {
    var rest := SplitFrom(result, pat, q + |pat|);
    SplitFromStep(result, pat, pos, q);
    JoinSame(rep, SplitFrom(result, pat, pos), [result[pos..q]] + rest);
    JoinCons(rep, result[pos..q], rest);
    assert result[..q] == result[..pos] + result[pos..q];
    Regroup(result[..pos], result[pos..q], rep, JoinOf(rep, rest), result[..q], JoinOf(rep, SplitFrom(result, pat, pos)));
  }

  lemma Regroup(done: string, piece: string, rep: string, rest: string, pre: string, all: string)
    requires pre == done + piece && all == piece + rep + rest
    ensures done + all == pre + rep + rest
  {
  }

  /** The in-place loop is splitting and joining: from `pos` on it replaces each
      piece boundary found from the left by `rep`, and leaves the text before `pos`
      alone. */
  lemma {:induction false} ReplaceScanSplit(result: string, pat: string, rep: string, pos: nat)
    requires pat != [] && pos <= |result|
    ensures ReplaceScan(result, pat, rep, pos) == result[..pos] + JoinOf(rep, SplitFrom(result, pat, pos))
    decreases |result| - pos, 1
  {
    match Find(result, pat, pos)
    case None =>
      assert SplitFrom(result, pat, pos) == [result[pos..]];
      assert result == result[..pos] + result[pos..];
    case Some(q) =>
      var next := Splice(result, pat, rep, pos, q);
      AfterSplice(result, pat, rep, q, next, q + |rep|);
      JoinFirstPiece(result, pat, rep, pos, q);
  }

  /** What Replace promises: every occurrence of a non-empty `pat`, found from the
      left without overlap, is replaced by `rep`, i.e. the pieces between them are
      joined with `rep`. */
  lemma ReplaceIsSplitJoin(s: string, pat: string, rep: string)
    requires pat != []
    ensures ReplaceAll(s, pat, rep) == JoinOf(rep, SplitFrom(s, pat, 0))
  {
    ReplaceScanSplit(s, pat, rep, 0);
    assert s[..0] == [];
  }

  /** Replacing a string by itself changes nothing. */
  lemma ReplaceSame(s: string, pat: string)
    ensures ReplaceAll(s, pat, pat) == s
  {
    if pat != [] {
      ReplaceIsSplitJoin(s, pat, pat);
      SplitJoin(s, pat, 0);
    }
  }

  /** Replacing a string that does not occur changes nothing. */
  lemma ReplaceAbsent(s: string, pat: string, rep: string)
    requires Free(s, pat)
    ensures ReplaceAll(s, pat, rep) == s
  {
    if pat != [] {
      FindSpec(s, pat, 0);
    }
  }

  // ---------------------------------------------------------------------------
  // Split on whitespace

  /** The whitespace split as the source's loop runs it: `word` is the word being
      built and `acc` the words already pushed; a whitespace character pushes a
      non-empty word, any other character extends it. */
  function WordScan(s: string, i: nat, word: string, acc: seq<string>): seq<string>
    requires i <= |s|
    decreases |s| - i
  {
    if i == |s| then (if word == [] then acc else acc + [word])
    else if IsSpace(s[i]) then WordScan(s, i + 1, [], if word == [] then acc else acc + [word])
    else WordScan(s, i + 1, word + [s[i]], acc)
  }

  /** The words of `s`, as the whitespace scan cuts them. */
  function Words(s: string): seq<string>
  {
    WordScan(s, 0, [], [])
  }

  /** The parts concatenated with nothing in between. */
  function Flatten(parts: seq<string>): string
  {
    if parts == [] then [] else Flatten(parts[..|parts| - 1]) + parts[|parts| - 1]
  }

  /** The characters of `s` that are not whitespace, in order. */
  function NonSpace(s: string): string
  {
    if s == [] then [] else (if IsSpace(s[0]) then [] else [s[0]]) + NonSpace(s[1..])
  }

  ghost predicate SpaceFree(w: string)
  {
    forall k :: 0 <= k < |w| ==> !IsSpace(w[k])
  }

  ghost predicate GoodWords(ws: seq<string>)
  {
    forall k :: 0 <= k < |ws| ==> ws[k] != [] && SpaceFree(ws[k])
  }

  lemma GoodWordsPush(acc: seq<string>, word: string)
    requires GoodWords(acc) && word != [] && SpaceFree(word)
    ensures GoodWords(acc + [word])
  {
  }

  lemma NonSpaceStep(s: string, i: nat)
    requires i < |s|
    ensures NonSpace(s[i..]) == (if IsSpace(s[i]) then [] else [s[i]]) + NonSpace(s[i + 1..])
  {
    assert s[i..][1..] == s[i + 1..];
  }

  /** The scan keeps its words non-empty and free of whitespace. */
  lemma {:induction false} WordScanGood(s: string, i: nat, word: string, acc: seq<string>)
    requires i <= |s| && GoodWords(acc) && SpaceFree(word)
    ensures GoodWords(WordScan(s, i, word, acc))
    decreases |s| - i
  {
    if i == |s| {
      if word != [] {
        GoodWordsPush(acc, word);
      }
    } else if IsSpace(s[i]) {
      if word != [] {
        GoodWordsPush(acc, word);
      }
      WordScanGood(s, i + 1, [], if word == [] then acc else acc + [word]);
    } else {
      WordScanGood(s, i + 1, word + [s[i]], acc);
    }
  }

  lemma FlattenPush(acc: seq<string>, word: string)
    ensures Flatten(acc + [word]) == Flatten(acc) + word
  {
    assert (acc + [word])[..|acc|] == acc;
  }

  lemma Concat3(f: string, w: string, c: string, n: string)
    ensures f + (w + c) + n == f + w + (c + n)
  {
  }

  /** A whitespace character pushes the pending word, if any. */
  lemma SpaceStep(s: string, i: nat, word: string, acc: seq<string>) returns (acc': seq<string>)
    requires i < |s| && IsSpace(s[i])
    ensures Flatten(acc') == Flatten(acc) + word
    ensures WordScan(s, i, word, acc) == WordScan(s, i + 1, [], acc')
  {
    acc' := if word == [] then acc else acc + [word];
    FlattenPush(acc, word);
  }

  /** The end of the input pushes the pending word, if any. */
  lemma EndStep(s: string, word: string, acc: seq<string>)
    ensures Flatten(WordScan(s, |s|, word, acc)) == Flatten(acc) + word + NonSpace(s[|s|..])
  {
    assert s[|s|..] == [];
    FlattenPush(acc, word);
  }

  /** The scan loses no non-whitespace character and adds none. */
  lemma {:induction false} WordScanChars(s: string, i: nat, word: string, acc: seq<string>)
    requires i <= |s|
    ensures Flatten(WordScan(s, i, word, acc)) == Flatten(acc) + word + NonSpace(s[i..])
    decreases |s| - i
  {
    if i == |s| {
      EndStep(s, word, acc);
    } else {
      NonSpaceStep(s, i);
      var rest := NonSpace(s[i + 1..]);
      if IsSpace(s[i]) {
        var acc' := SpaceStep(s, i, word, acc);
        WordScanChars(s, i + 1, [], acc');
        assert Flatten(acc') + [] + rest == Flatten(acc) + word + rest;
      } else {
        WordScanChars(s, i + 1, word + [s[i]], acc);
        Concat3(Flatten(acc), word, [s[i]], rest);
      }
    }
  }

  /** What whitespace splitting promises: no empty words, no whitespace inside a
      word, and together the words hold exactly the non-whitespace characters. */
  lemma WordsSpec(s: string)
    ensures GoodWords(Words(s))
    ensures Flatten(Words(s)) == NonSpace(s)
    ensures NonSpace(s) == [] ==> Words(s) == []
  {
    WordScanGood(s, 0, [], []);
    WordScanChars(s, 0, [], []);
    assert s[0..] == s;
    if NonSpace(s) == [] && Words(s) != [] {
      FlattenNonEmpty(Words(s));
    }
  }

  lemma {:induction false} FlattenNonEmpty(ws: seq<string>)
    requires ws != [] && ws[|ws| - 1] != []
    ensures Flatten(ws) != []
  {
  }

  // ---------------------------------------------------------------------------
  // Split

  /** Split's result: the words of `str` for the empty separator, the pieces
      between occurrences of `splt` otherwise. */
  function SplitAll(str: string, splt: string): seq<string>
  {
    if splt == [] then Words(str) else SplitFrom(str, splt, 0)
  }

  /** The separator mode always yields at least one piece and gives the string back
      when the pieces are joined with the separator. */
  lemma SplitSeparatorSpec(str: string, splt: string)
    requires splt != []
    ensures |SplitAll(str, splt)| >= 1
    ensures JoinOf(splt, SplitAll(str, splt)) == str
    ensures forall k :: 0 <= k < |SplitAll(str, splt)| ==> Free(SplitAll(str, splt)[k], splt)
  {
    SplitJoin(str, splt, 0);
    SplitPiecesFree(str, splt, 0);
  }

  lemma SplitFromStep(s: string, sep: string, start: nat, end: nat)
    requires sep != [] && start <= |s| && Find(s, sep, start) == Some(end)
    ensures end + |sep| <= |s|
    ensures SplitFrom(s, sep, start) == [s[start..end]] + SplitFrom(s, sep, end + |sep|)
  {
  }

  lemma PushPiece(done: seq<string>, piece: string, later: seq<string>, goal: seq<string>)
    requires done + ([piece] + later) == goal
    ensures (done + [piece]) + later == goal
  {
  }

  /** The whitespace mode of Split: a character loop that pushes each finished word. */
  method SplitWords(str: string) returns (result: seq<string>)
    ensures result == Words(str)
  {
    result := [];
    var word := [];
    for i := 0 to |str|
      invariant WordScan(str, i, word, result) == Words(str)
    {
      if IsSpace(str[i]) {
        if |word| != 0 {
          result := result + [word];
          word := [];
        }
      } else {
        word := word + [str[i]];
      }
    }
    if |word| != 0 {
      result := result + [word];
    }
  }

  /** Splits into words for the empty separator; otherwise takes the piece before
      each occurrence of `splt` with a find loop, then the rest. */
  method Split(str: string, splt: string) returns (result: seq<string>)
    ensures result == SplitAll(str, splt)
  {
    if |splt| == 0 {
      result := SplitWords(str);
      return;
    }
    result := [];
    ghost var goal := SplitFrom(str, splt, 0);
    var start: nat := 0;
    var end := Find(str, splt, 0);
    while end.Some?
      invariant start <= |str|
      invariant end == Find(str, splt, start)
      invariant result + SplitFrom(str, splt, start) == goal
      decreases |str| - start
    {
      SplitFromStep(str, splt, start, end.value);
      PushPiece(result, str[start..end.value], SplitFrom(str, splt, end.value + |splt|), goal);
      result := result + [str[start..end.value]];
      start := end.value + |splt|;
      end := Find(str, splt, start);
    }
    result := result + [str[start..]];
  }

  // ---------------------------------------------------------------------------
  // ExpandTabs

  /** `s` with every tab widened to the next multiple of `tabsize` columns; the
      column is the length of the output so far. */
  function Expanded(s: string, tabsize: nat): string
    requires tabsize > 0
  {
    if s == [] then []
    else
      var prev := Expanded(s[..|s| - 1], tabsize);
      if s[|s| - 1] == Tab then prev + Fill(tabsize - |prev| % tabsize, ' ')
      else prev + [s[|s| - 1]]
  }

  /** Copies each character and widens each tab, tracking the output column. */
  method ExpandTabs(str: string, tabsize: int) returns (result: string)
    requires tabsize > 0
    ensures result == Expanded(str, tabsize)
  {
    result := [];
    var column := 0;
    for i := 0 to |str|
      invariant column == |result|
      invariant result == Expanded(str[..i], tabsize)
    {
      assert str[..i + 1][..i] == str[..i];
      if str[i] == Tab {
        var spaces := tabsize - column % tabsize;
        result := result + Fill(spaces, ' ');
        column := column + spaces;
      } else {
        result := result + [str[i]];
        column := column + 1;
      }
    }
    assert str[..|str|] == str;
  }

  /** No tab survives expansion. */
  lemma {:induction false} ExpandedNoTabs(s: string, tabsize: nat)
    requires tabsize > 0
    ensures forall k :: 0 <= k < |Expanded(s, tabsize)| ==> Expanded(s, tabsize)[k] != Tab
    decreases |s|
  {
    if s != [] {
      ExpandedNoTabs(s[..|s| - 1], tabsize);
    }
  }

  /** Text without tabs is copied unchanged. */
  lemma {:induction false} ExpandedPlain(s: string, tabsize: nat)
    requires tabsize > 0 && forall k :: 0 <= k < |s| ==> s[k] != Tab
    ensures Expanded(s, tabsize) == s
    decreases |s|
  {
    if s != [] {
      var init := s[..|s| - 1];
      ExpandedPlain(init, tabsize);
      assert s == init + [s[|s| - 1]];
    }
  }

  /** The last character of `s` adds between one and `tabsize` characters. */
  lemma ExpandedLast(s: string, tabsize: nat)
    requires tabsize > 0 && s != []
    ensures var before := |Expanded(s[..|s| - 1], tabsize)|;
            before + 1 <= |Expanded(s, tabsize)| <= before + tabsize
  {
  }

  lemma LengthBound(n: nat, before: nat, after: nat, t: nat)
    requires n <= before <= n * t && before + 1 <= after <= before + t
    ensures n + 1 <= after <= (n + 1) * t
  {
    assert (n + 1) * t == n * t + t;
  }

  /** Each character becomes between one and `tabsize` characters. */
  lemma {:induction false} ExpandedLength(s: string, tabsize: nat)
    requires tabsize > 0
    ensures |s| <= |Expanded(s, tabsize)| <= |s| * tabsize
    decreases |s|
  {
    if s != [] {
      var init := s[..|s| - 1];
      ExpandedLength(init, tabsize);
      ExpandedLast(s, tabsize);
      LengthBound(|init|, |Expanded(init, tabsize)|, |Expanded(s, tabsize)|, tabsize);
    }
  }

  lemma NextStop(x: nat, t: nat)
    requires t > 0
    ensures x + (t - x % t) == (x / t + 1) * t
  {
  }

  /** A tab moves the column to the next multiple of `tabsize`. */
  lemma ExpandedTabStop(s: string, tabsize: nat)
    requires tabsize > 0
    ensures |Expanded(s + [Tab], tabsize)| == (|Expanded(s, tabsize)| / tabsize + 1) * tabsize
  {
    assert (s + [Tab])[..|s|] == s;
    NextStop(|Expanded(s, tabsize)|, tabsize);
  }
  /** Expanding a prefix leaves the rest to be expanded from where it ends. */
  lemma {:induction false} ExpandedPrefix(s: string, t: string, tabsize: nat)
    requires tabsize > 0
    ensures Expanded(s, tabsize) <= Expanded(s + t, tabsize)
    decreases |t|
  {
    if t == [] {
      assert s + t == s;
    } else {
      var u := s + t[..|t| - 1];
      assert (s + t)[..|s + t| - 1] == u;
      ExpandedPrefix(s, t[..|t| - 1], tabsize);
      assert s + t[..|t| - 1] == u;
    }
  }

  // ---------------------------------------------------------------------------
  // EditDistance

  function Min3(x: nat, y: nat, z: nat): (r: nat)
    ensures r <= x && r <= y && r <= z
    ensures r == x || r == y || r == z
  {
    if x <= y && x <= z then x else if y <= z then y else z
  }

  /** The Levenshtein distance between the first `i` characters of `a` and the first
      `j` characters of `b`, by the recurrence the table is filled with. */
  function Lev(a: string, b: string, i: nat, j: nat): nat
    requires i <= |a| && j <= |b|
    decreases i + j
  {
    if i == 0 then j
    else if j == 0 then i
    else if a[i - 1] == b[j - 1] then Lev(a, b, i - 1, j - 1)
    else 1 + Min3(Lev(a, b, i - 1, j), Lev(a, b, i, j - 1), Lev(a, b, i - 1, j - 1))
  }

  /** The distance is zero exactly between equal prefixes. */
  lemma {:induction false} LevZero(a: string, b: string, i: nat, j: nat)
    requires i <= |a| && j <= |b|
    ensures Lev(a, b, i, j) == 0 <==> i == j && a[..i] == b[..j]
    decreases i + j
  {
    if i > 0 && j > 0 {
      LevZero(a, b, i - 1, j - 1);
      assert a[..i] == a[..i - 1] + [a[i - 1]];
      assert b[..j] == b[..j - 1] + [b[j - 1]];
      if i == j && a[..i] == b[..j] {
        assert a[i - 1] == a[..i][i - 1] == b[..j][j - 1] == b[j - 1];
        assert a[..i - 1] == a[..i][..i - 1];
        assert b[..j - 1] == b[..j][..j - 1];
      }
    }
  }

  /** The distance never exceeds the longer prefix. */
  lemma {:induction false} LevUpper(a: string, b: string, i: nat, j: nat)
    requires i <= |a| && j <= |b|
    ensures Lev(a, b, i, j) <= if i < j then j else i
    decreases i + j
  {
    if i > 0 && j > 0 {
      LevUpper(a, b, i - 1, j - 1);
    }
  }

  /** The distance is at least the difference of the lengths. */
  lemma {:induction false} LevLower(a: string, b: string, i: nat, j: nat)
    requires i <= |a| && j <= |b|
    ensures Lev(a, b, i, j) >= if i < j then j - i else i - j
    decreases i + j
  {
    if i > 0 && j > 0 {
      LevLower(a, b, i - 1, j - 1);
      if a[i - 1] != b[j - 1] {
        LevLower(a, b, i - 1, j);
        LevLower(a, b, i, j - 1);
      }
    }
  }

  /** The distance does not depend on the order of the two strings. */
  lemma {:induction false} LevSymmetric(a: string, b: string, i: nat, j: nat)
    requires i <= |a| && j <= |b|
    ensures Lev(a, b, i, j) == Lev(b, a, j, i)
    decreases i + j
  {
    if i > 0 && j > 0 {
      LevSymmetric(a, b, i - 1, j - 1);
      if a[i - 1] != b[j - 1] {
        LevSymmetric(a, b, i - 1, j);
        LevSymmetric(a, b, i, j - 1);
      }
    }
  }

  /** EditDistance's result: the distance between the two strings, lower-cased
      first when `ignorecase` is set. */
  function Distance(left: string, right: string, ignorecase: bool): nat
  {
    var l := if ignorecase then Lowercased(left) else left;
    var r := if ignorecase then Lowercased(right) else right;
    Lev(l, r, |l|, |r|)
  }

  /** What EditDistance promises: zero exactly for equal strings (equal once
      lower-cased, with `ignorecase`), symmetric, and between the length difference
      and the longer length. */
  lemma DistanceSpec(left: string, right: string, ignorecase: bool)
    ensures Distance(left, right, ignorecase) == 0 <==>
            (if ignorecase then Lowercased(left) == Lowercased(right) else left == right)
    ensures Distance(left, right, ignorecase) == Distance(right, left, ignorecase)
    ensures Distance(left, right, ignorecase) <= if |left| < |right| then |right| else |left|
    ensures Distance(left, right, ignorecase) >= if |left| < |right| then |right| - |left| else |left| - |right|
  {
    var l := if ignorecase then Lowercased(left) else left;
    var r := if ignorecase then Lowercased(right) else right;
    assert |l| == |left| && |r| == |right|;
    LevZero(l, r, |l|, |r|);
    assert l[..|l|] == l && r[..|r|] == r;
    LevSymmetric(l, r, |l|, |r|);
    LevUpper(l, r, |l|, |r|);
    LevLower(l, r, |l|, |r|);
  }

  /** One cell of the recurrence, from the three neighbours already computed. */
  lemma LevCell(a: string, b: string, i: nat, j: nat, diag: nat, up: nat, left: nat)
    requires 0 < i <= |a| && 0 < j <= |b|
    requires diag == Lev(a, b, i - 1, j - 1) && up == Lev(a, b, i - 1, j) && left == Lev(a, b, i, j - 1)
    ensures Lev(a, b, i, j) == if a[i - 1] == b[j - 1] then diag else 1 + Min3(up, left, diag)
  {
  }

  /** Fills row `i` of the table from left to right out of row `i - 1` and the
      cell to the left. */
  method FillRow(dp: array2<nat>, l: string, r: string, i: nat)
    requires dp.Length0 == |l| + 1 && dp.Length1 == |r| + 1 && 1 <= i <= |l|
    requires dp[i, 0] == i
    requires forall x, y {:trigger dp[x, y]} :: 0 <= x < i && 0 <= y <= |r| ==> dp[x, y] == Lev(l, r, x, y)
    modifies dp
    ensures forall x, y {:trigger dp[x, y]} :: 0 <= x <= i && 0 <= y <= |r| ==> dp[x, y] == Lev(l, r, x, y)
    ensures forall x :: i < x <= |l| ==> dp[x, 0] == old(dp[x, 0])
  {
    for j := 1 to |r| + 1
      invariant forall x, y {:trigger dp[x, y]} :: 0 <= x < i && 0 <= y <= |r| ==> dp[x, y] == Lev(l, r, x, y)
      invariant forall y {:trigger dp[i, y]} :: 0 <= y < j ==> dp[i, y] == Lev(l, r, i, y)
      invariant forall x :: i < x <= |l| ==> dp[x, 0] == old(dp[x, 0])
    {
      var diag, up, left := dp[i - 1, j - 1], dp[i - 1, j], dp[i, j - 1];
      LevCell(l, r, i, j, diag, up, left);
      dp[i, j] := if l[i - 1] == r[j - 1] then diag else 1 + Min3(up, left, diag);
    }
  }

  /** Fills the (m+1) by (n+1) table row by row; cell (i, j) holds the distance
      between the first i characters of one string and the first j of the other. */
  method EditDistance(left: string, right: string, ignorecase: bool) returns (d: nat)
    ensures d == Distance(left, right, ignorecase)
  {
    var l, r := left, right;
    if ignorecase {
      l := Lower(left);
      r := Lower(right);
    }
    var m, n := |l|, |r|;
    var dp := new nat[m + 1, n + 1];
    for i := 0 to m + 1
      invariant forall x :: 0 <= x < i ==> dp[x, 0] == x
    {
      dp[i, 0] := i;
    }
    for j := 0 to n + 1
      invariant forall x :: 0 <= x <= m ==> dp[x, 0] == x
      invariant forall y :: 0 <= y < j ==> dp[0, y] == y
    {
      dp[0, j] := j;
    }
    for i := 1 to m + 1
      invariant forall x :: i <= x <= m ==> dp[x, 0] == x
      invariant forall x, y {:trigger dp[x, y]} :: 0 <= x < i && 0 <= y <= n ==> dp[x, y] == Lev(l, r, x, y)
    {
      FillRow(dp, l, r, i);
    }
    d := dp[m, n];
  }
}
