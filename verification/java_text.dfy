/**
 * The java.lang string operations the row pipeline relies on, with Java's
 * edge cases: String.split (with a quoted delimiter and limit -1, and the
 * one-argument form that drops trailing empty strings), String.replace,
 * String.trim, String.endsWith, String.compareTo, Integer.parseInt,
 * Integer.toString, Boolean.parseBoolean and BufferedReader.readLine.
 */
module JavaText {
  import opened Wrappers

  const IntMin: int := -0x8000_0000
  const IntMax: int := 0x7fff_ffff

  /** `s.endsWith(suffix)` */
  predicate EndsWith(s: string, suffix: string)
  {
    |suffix| <= |s| && s[|s| - |suffix|..] == suffix
  }

  /** `d` occurs in `s` starting at index `i`. */
  predicate OccursAt(s: string, d: string, i: int)
  {
    0 <= i && i + |d| <= |s| && s[i..i + |d|] == d
  }

  /** The index of the first occurrence of a non-empty `d` in `s` (`s.indexOf(d)`). */
  function Find(s: string, d: string): (r: Option<nat>)
    requires |d| > 0
    ensures r.Some? ==> r.value + |d| <= |s|
  {
    FindFrom(s, d, 0)
  }

  /** `s.indexOf(d, k)`: the search goes right from index `k`. */
  function FindFrom(s: string, d: string, k: nat): (r: Option<nat>)
    requires |d| > 0
    ensures r.Some? ==> k <= r.value && r.value + |d| <= |s|
    decreases |s| - k
  {
    if k + |d| > |s| then None
    else if MatchFrom(s, d, k, 0) then Some(k)
    else FindFrom(s, d, k + 1)
  }

  /** The characters of `d` from index `m` on equal those of `s` from `k + m` on, compared one by one. */
  predicate MatchFrom(s: string, d: string, k: nat, m: nat)
    requires k + |d| <= |s| && m <= |d|
    decreases |d| - m
  {
    m == |d| || (s[k + m] == d[m] && MatchFrom(s, d, k, m + 1))
  }

  lemma {:induction false} MatchFromSlice(s: string, d: string, k: nat, m: nat)
    requires k + |d| <= |s| && m <= |d|
    ensures MatchFrom(s, d, k, m) <==> s[k + m..k + |d|] == d[m..]
    decreases |d| - m
  {
    if m < |d| {
      MatchFromSlice(s, d, k, m + 1);
      assert s[k + m..k + |d|] == [s[k + m]] + s[k + m + 1..k + |d|];
      assert d[m..] == [d[m]] + d[m + 1..];
    }
  }

  /** `Find` returns an occurrence with none before it, and `None` only when there is none. */
  lemma FindOccurrence(s: string, d: string)
    requires |d| > 0
    ensures var r := Find(s, d); r.Some? ==> OccursAt(s, d, r.value)
    ensures var r := Find(s, d); r.Some? ==> forall j :: 0 <= j < r.value ==> !OccursAt(s, d, j)
    ensures Find(s, d).None? ==> forall j :: 0 <= j <= |s| ==> !OccursAt(s, d, j)
  {
    FindFromOccurrence(s, d, 0);
  }

  lemma {:induction false} FindFromOccurrence(s: string, d: string, k: nat)
    requires |d| > 0
    ensures var r := FindFrom(s, d, k); r.Some? ==> OccursAt(s, d, r.value)
    ensures var r := FindFrom(s, d, k); r.Some? ==> forall j :: k <= j < r.value ==> !OccursAt(s, d, j)
    ensures FindFrom(s, d, k).None? ==> forall j :: k <= j <= |s| ==> !OccursAt(s, d, j)
    decreases |s| - k
  {
    if k + |d| <= |s| {
      MatchFromSlice(s, d, k, 0);
      assert d[0..] == d;
      if !MatchFrom(s, d, k, 0) {
        FindFromOccurrence(s, d, k + 1);
      }
    }
  }

  /** `parts` glued back together with `d` between neighbours (`String.join`). */
  function Join(parts: seq<string>, d: string): string
  {
    if |parts| == 0 then ""
    else if |parts| == 1 then parts[0]
    else parts[0] + d + Join(parts[1..], d)
  }

  /**
   * `s.split(Pattern.quote(d), -1)`: every occurrence of `d`, taken
   * literally and left to right, separates two fields; empty fields,
   * trailing ones included, are kept. An empty `d` matches between every
   * two characters and at the end, but not at the start.
   */
  function Split(s: string, d: string): (parts: seq<string>)
    ensures |parts| >= 1
    decreases |s|
  {
    if |d| == 0 then
      if |s| == 0 then [s] else Chars(s) + [""]
    else
      match Find(s, d)
      case None => [s]
      case Some(i) => [s[..i]] + Split(s[i + |d|..], d)
  }

  /** Splitting and joining with the same delimiter gives the line back. */
  lemma SplitJoin(s: string, d: string)
    ensures Join(Split(s, d), d) == s
  {
    if |d| == 0 {
      if |s| > 0 {
        JoinChars(s);
      }
    } else {
      SplitJoinLiteral(s, d);
    }
  }

  lemma {:induction false} SplitJoinLiteral(s: string, d: string)
    requires |d| > 0
    ensures Join(Split(s, d), d) == s
    decreases |s|
  {
    var found := Find(s, d);
    if found.Some? {
      var i := found.value;
      var rest := s[i + |d|..];
      var tail := Split(rest, d);
      FindOccurrence(s, d);
      calc {
        Join(Split(s, d), d);
        Join([s[..i]] + tail, d);
        { JoinCons(s[..i], tail, d); }
        s[..i] + d + Join(tail, d);
        { SplitJoinLiteral(rest, d); }
        s[..i] + d + rest;
        { SliceConcat(s, i, i + |d|); }
        s;
      }
    }
  }

  lemma SliceConcat(s: string, i: int, j: int)
    requires 0 <= i <= j <= |s|
    ensures s == s[..i] + s[i..j] + s[j..]
  {
  }

  lemma JoinCons(head: string, tail: seq<string>, d: string)
    requires |tail| >= 1
    ensures Join([head] + tail, d) == head + d + Join(tail, d)
  {
    assert ([head] + tail)[1..] == tail;
  }

  /** Each character of `s` as a one-character string, in order. */
  function Chars(s: string): (parts: seq<string>)
    ensures |parts| == |s|
    ensures forall i :: 0 <= i < |s| ==> parts[i] == [s[i]]
  {
    if |s| == 0 then [] else [s[..1]] + Chars(s[1..])
  }

  /**
   * The split at the empty delimiter: one field per character, in order,
   * then one empty field.
   */
  lemma SplitEmpty(s: string)
    ensures |Split(s, "")| == |s| + 1
    ensures forall i :: 0 <= i < |s| ==> Split(s, "")[i] == [s[i]]
    ensures Split(s, "")[|s|] == ""
  {
    var parts := Split(s, "");
    if |s| > 0 {
      assert parts == Chars(s) + [""];
    }
  }

  /** The empty-delimiter split joins back without separators. */
  lemma {:induction false} JoinChars(s: string)
    requires |s| > 0
    ensures Join(Chars(s) + [""], "") == s
    decreases |s|
  {
    var parts := Chars(s) + [""];
    if |s| > 1 {
      JoinChars(s[1..]);
      assert parts == [s[..1]] + (Chars(s[1..]) + [""]);
      JoinCons(s[..1], Chars(s[1..]) + [""], "");
      assert s == s[..1] + s[1..];
    }
  }

  /** An occurrence with none before it is the one `Find` returns. */
  lemma FindFirst(s: string, d: string, i: int)
    requires |d| > 0 && OccursAt(s, d, i)
    requires forall j :: 0 <= j < i ==> !OccursAt(s, d, j)
    ensures Find(s, d) == Some(i)
  {
    FindOccurrence(s, d);
  }

  /** Text after an occurrence does not change whether it is the first one. */
  lemma FindPrefix(u: string, w: string, d: string, i: int)
    requires |d| > 0 && 0 <= i && i + |d| <= |u|
    ensures Find(u + w, d) == Some(i) <==> Find(u, d) == Some(i)
  {
    forall j | 0 <= j <= i
      ensures OccursAt(u + w, d, j) <==> OccursAt(u, d, j)
    {
      assert (u + w)[j..j + |d|] == u[j..j + |d|];
    }
    FindOccurrence(u + w, d);
    FindOccurrence(u, d);
    if Find(u + w, d) == Some(i) {
      FindFirst(u, d, i);
    } else if Find(u, d) == Some(i) {
      FindFirst(u + w, d, i);
    }
  }

  /**
   * Where the literal split cuts: every field but the last is followed by
   * the first occurrence of `d` in the rest of the text, and the last field
   * holds no occurrence at all.
   */
  lemma {:induction false} SplitDelimited(s: string, d: string)
    requires |d| > 0
    ensures CutAtFirst(Split(s, d), d)
    ensures Find(Split(s, d)[|Split(s, d)| - 1], d).None?
    decreases |s|
  {
    var found := Find(s, d);
    if found.None? {
      SplitNone(s, d);
    } else {
      var i := found.value;
      var head, rest := s[..i], s[i + |d|..];
      var parts, tail := Split(s, d), Split(rest, d);
      SplitDelimited(rest, d);
      var last := tail[|tail| - 1];
      assert Find(last, d).None?;
      SplitAt(s, d, i);
      assert parts[|parts| - 1] == last;
      FindCut(s, d, i);
      CutsCons(head, tail, d);
    }
  }

  /** The text before the first occurrence, followed by `d`, has its first occurrence at its end. */
  lemma FindCut(s: string, d: string, i: nat)
    requires |d| > 0 && Find(s, d) == Some(i)
    ensures Find(s[..i] + d, d) == Some(i)
  {
    FindOccurrence(s, d);
    var u, rest := s[..i + |d|], s[i + |d|..];
    assert s[..i] + d == u;
    assert s == u + rest;
    FindPrefix(u, rest, d, i);
  }

  /**
   * Every field of `parts` but the last, followed by `d`, has its first
   * occurrence of `d` at its end: `d` does not occur inside the field, nor
   * across its end.
   */
  predicate CutAtFirst(parts: seq<string>, d: string)
    requires |d| > 0
  {
    forall k :: 0 <= k < |parts| - 1 ==> Find(parts[k] + d, d) == Some(|parts[k]|)
  }

  /** Putting a field cut at its first occurrence in front keeps every field but the last cut so. */
  lemma CutsCons(head: string, tail: seq<string>, d: string)
    requires |d| > 0 && |tail| >= 1
    requires Find(head + d, d) == Some(|head|)
    requires CutAtFirst(tail, d)
    ensures CutAtFirst([head] + tail, d)
    ensures ([head] + tail)[|tail|] == tail[|tail| - 1]
  {
    var parts := [head] + tail;
    forall k | 0 <= k < |parts| - 1
      ensures Find(parts[k] + d, d) == Some(|parts[k]|)
    {
      if k > 0 {
        assert parts[k] == tail[k - 1];
      }
    }
  }

  /**
   * Those two properties and the round trip determine the split: any list
   * of fields that joins back to `s` and is cut at first occurrences is
   * `Split(s, d)`.
   */
  lemma {:induction false} SplitUnique(s: string, d: string, parts: seq<string>)
    requires |d| > 0 && |parts| >= 1 && Join(parts, d) == s
    requires CutAtFirst(parts, d)
    requires Find(parts[|parts| - 1], d).None?
    ensures parts == Split(s, d)
    decreases |parts|
  {
    if |parts| > 1 {
      var head, tail := parts[0], parts[1..];
      var rest := Join(tail, d);
      assert parts == [head] + tail;
      JoinCons(head, tail, d);
      CutsTail(parts, d);
      assert s == (head + d) + rest;
      FindPrefix(head + d, rest, d, |head|);
      assert s[..|head|] == head;
      assert s[|head| + |d|..] == rest;
      assert tail[|tail| - 1] == parts[|parts| - 1];
      SplitUnique(rest, d, tail);
      SplitAt(s, d, |head|);
    } else {
      SplitNone(s, d);
    }
  }

  /** The first field of a list cut at first occurrences is cut so, and so is the rest of the list. */
  lemma CutsTail(parts: seq<string>, d: string)
    requires |d| > 0 && |parts| >= 2 && CutAtFirst(parts, d)
    ensures Find(parts[0] + d, d) == Some(|parts[0]|)
    ensures CutAtFirst(parts[1..], d)
  {
    var tail := parts[1..];
    forall k | 0 <= k < |tail| - 1
      ensures Find(tail[k] + d, d) == Some(|tail[k]|)
    {
      assert tail[k] == parts[k + 1];
    }
  }

  /** The first `n` strings of `parts`, with every empty string after them dropped. */
  function DropTrailingEmpty(parts: seq<string>): (r: seq<string>)
    ensures |r| <= |parts| && r == parts[..|r|]
    ensures forall i :: |r| <= i < |parts| ==> parts[i] == ""
    ensures |r| > 0 ==> r[|r| - 1] != ""
  {
    if |parts| == 0 then []
    else if parts[|parts| - 1] == "" then DropTrailingEmpty(parts[..|parts| - 1])
    else parts
  }

  /**
   * `s.split(",")` (limit 0): like `Split`, then trailing empty strings are
   * removed, except that a line with no separator at all comes back whole,
   * so "" splits into [""] while "," splits into [].
   */
  function SplitDropTrailing(s: string, d: string): (parts: seq<string>)
    requires |d| > 0
  {
    if Find(s, d).None? then [s] else DropTrailingEmpty(Split(s, d))
  }

  /**
   * The one-argument split is the `-1` split with its trailing empty
   * strings removed, except that a text without the separator comes back whole.
   */
  lemma SplitDropTrailingPrefix(s: string, d: string)
    requires |d| > 0
    ensures |SplitDropTrailing(s, d)| <= |Split(s, d)|
    ensures SplitDropTrailing(s, d) == Split(s, d)[..|SplitDropTrailing(s, d)|]
    ensures forall i :: |SplitDropTrailing(s, d)| <= i < |Split(s, d)| ==> Split(s, d)[i] == ""
    ensures Find(s, d).Some? && |SplitDropTrailing(s, d)| > 0 ==> SplitDropTrailing(s, d)[|SplitDropTrailing(s, d)| - 1] != ""
    ensures Find(s, d).None? ==> SplitDropTrailing(s, d) == [s]
  {
  }

  /**
   * `s.replace(t, "")`: as `String.replace` does it, the text up to the
   * first occurrence of `t` is kept, the occurrence is dropped and the
   * search goes on after it; an empty `t` changes nothing.
   */
  function RemoveAll(s: string, t: string): (r: string)
    ensures |r| <= |s|
    decreases |s|
  {
    if |t| == 0 then s
    else
      match Find(s, t)
      case None => s
      case Some(i) => s[..i] + RemoveAll(s[i + |t|..], t)
  }

  /** A string in which `t` does not occur is left as it is. */
  lemma RemoveAllAbsent(s: string, t: string)
    requires |t| > 0
    requires forall j :: 0 <= j <= |s| ==> !OccursAt(s, t, j)
    ensures RemoveAll(s, t) == s
  {
    FindOccurrence(s, t);
    assert Find(s, t).None?;
  }

  /** Removing a non-empty token that is present shortens the string. */
  lemma RemoveAllShortens(s: string, t: string, j: int)
    requires |t| > 0 && OccursAt(s, t, j)
    ensures |RemoveAll(s, t)| < |s|
  {
    FindOccurrence(s, t);
    var i := Find(s, t).value;
    assert |RemoveAll(s, t)| <= i + |s[i + |t|..]|;
  }

  lemma RemoveAllAt(s: string, t: string, i: int)
    requires |t| > 0 && Find(s, t) == Some(i)
    ensures RemoveAll(s, t) == s[..i] + RemoveAll(s[i + |t|..], t)
  {
    var removed := RemoveAll(s, t);
    var rest := s[i + |t|..];
    var after := RemoveAll(rest, t);
    var head := s[..i];
    assert removed == head + after;
  }

  lemma SplitNone(s: string, d: string)
    requires |d| > 0 && Find(s, d).None?
    ensures Split(s, d) == [s]
  {
  }

  lemma SplitAt(s: string, d: string, i: int)
    requires |d| > 0 && Find(s, d) == Some(i)
    ensures Split(s, d) == [s[..i]] + Split(s[i + |d|..], d)
  {
    var parts := Split(s, d);
    var rest := s[i + |d|..];
    var tail := Split(rest, d);
    var head := s[..i];
    assert parts == [head] + tail;
  }

  /**
   * `replace(t, "")` removes exactly the occurrences `split` cuts at: the
   * result is the fields of the literal split, glued with nothing between.
   */
  lemma {:induction false} RemoveAllIsSplitJoin(s: string, t: string)
    requires |t| > 0
    ensures RemoveAll(s, t) == Join(Split(s, t), "")
    decreases |s|
  {
    var found := Find(s, t);
    if found.None? {
      SplitNone(s, t);
    } else {
      var i := found.value;
      var rest := s[i + |t|..];
      RemoveAllIsSplitJoin(rest, t);
      RemoveAllAt(s, t, i);
      SplitAt(s, t, i);
      JoinCons(s[..i], Split(rest, t), "");
    }
  }

  /** `String.trim()`: strips every character up to U+0020 from both ends. */
  function Trim(s: string): (r: string)
    ensures |r| <= |s|
    decreases |s|
  {
    if |s| > 0 && s[0] <= ' ' then Trim(s[1..])
    else if |s| > 0 && s[|s| - 1] <= ' ' then Trim(s[..|s| - 1])
    else s
  }

  /** `s.trim().isEmpty()` holds exactly when every character is at most U+0020. */
  lemma {:induction false} TrimEmpty(s: string)
    ensures Trim(s) == "" <==> forall i :: 0 <= i < |s| ==> s[i] <= ' '
    decreases |s|
  {
    if |s| > 0 && s[0] <= ' ' {
      TrimEmpty(s[1..]);
      assert forall i :: 1 <= i < |s| ==> s[i] == s[1..][i - 1];
    } else if |s| > 0 && s[|s| - 1] <= ' ' {
      TrimEmpty(s[..|s| - 1]);
      assert forall i :: 0 <= i < |s| - 1 ==> s[i] == s[..|s| - 1][i];
    }
  }

  /** `a.compareTo(b) < 0`: lexicographic by character, a proper prefix first. */
  predicate Less(a: string, b: string)
    decreases |a|
  {
    if |a| == 0 then |b| > 0
    else if |b| == 0 then false
    else if a[0] == b[0] then Less(a[1..], b[1..])
    else a[0] < b[0]
  }

  lemma {:induction false} LessIrreflexive(a: string)
    ensures !Less(a, a)
    decreases |a|
  {
    if |a| > 0 { LessIrreflexive(a[1..]); }
  }

  lemma {:induction false} LessAsymmetric(a: string, b: string)
    ensures Less(a, b) ==> !Less(b, a)
    decreases |a|
  {
    if |a| > 0 && |b| > 0 && a[0] == b[0] { LessAsymmetric(a[1..], b[1..]); }
  }

  lemma {:induction false} LessTransitive(a: string, b: string, c: string)
    ensures Less(a, b) && Less(b, c) ==> Less(a, c)
    decreases |a|
  {
    if |a| > 0 && |b| > 0 && |c| > 0 && a[0] == b[0] && b[0] == c[0] {
      LessTransitive(a[1..], b[1..], c[1..]);
    }
  }

  lemma {:induction false} LessTotal(a: string, b: string)
    ensures a == b || Less(a, b) || Less(b, a)
    decreases |a|
  {
    if |a| > 0 && |b| > 0 && a[0] == b[0] {
      LessTotal(a[1..], b[1..]);
      if a[1..] == b[1..] {
        assert a == [a[0]] + a[1..] && b == [b[0]] + b[1..];
      }
    }
  }

  predicate IsDigit(c: char)
  {
    '0' <= c <= '9'
  }

  predicate AllDigits(s: string)
  {
    forall i :: 0 <= i < |s| ==> IsDigit(s[i])
  }

  /** The value of a string of decimal digits, most significant first. */
  function DigitsValue(s: string): (n: nat)
    requires AllDigits(s)
    decreases |s|
  {
    if |s| == 0 then 0 else DigitsValue(s[..|s| - 1]) * 10 + (s[|s| - 1] as int - '0' as int)
  }

  /**
   * `Integer.parseInt(s)`: an optional sign, then one or more decimal digits,
   * denoting a value in the 32-bit range; anything else is a
   * NumberFormatException (`None`).
   */
  function ParseInt(s: string): (r: Option<int>)
    ensures r.Some? ==> IntMin <= r.value <= IntMax
    ensures r.Some? ==> |s| > 0
  {
    if |s| == 0 then None
    else
      var digits := if s[0] == '-' || s[0] == '+' then s[1..] else s;
      if |digits| == 0 || !AllDigits(digits) then None
      else
        var v: int := if s[0] == '-' then 0 - DigitsValue(digits) else DigitsValue(digits);
        if IntMin <= v <= IntMax then Some(v) else None
  }

  /**
   * What `ParseInt` accepts: a text that parses is a digit string, or a
   * '+' or '-' followed by a non-empty digit string, and its value is that
   * of the digits, negated after a '-'.
   */
  lemma ParseIntSound(s: string, n: int)
    requires ParseInt(s) == Some(n)
    ensures s[0] == '-' || s[0] == '+' || IsDigit(s[0])
    ensures IsDigit(s[0]) ==> AllDigits(s) && n == DigitsValue(s)
    ensures s[0] == '+' ==> |s| > 1 && AllDigits(s[1..]) && n == DigitsValue(s[1..])
    ensures s[0] == '-' ==> |s| > 1 && AllDigits(s[1..]) && n == 0 - DigitsValue(s[1..])
  {
  }

  /** And conversely: every such text whose value is in the 32-bit range parses to it. */
  lemma ParseIntComplete(sign: string, digits: string)
    requires sign == "" || sign == "+" || sign == "-"
    requires |digits| > 0 && AllDigits(digits)
    requires IntMin <= (if sign == "-" then 0 - DigitsValue(digits) else DigitsValue(digits)) <= IntMax
    ensures ParseInt(sign + digits) == Some(if sign == "-" then 0 - DigitsValue(digits) else DigitsValue(digits))
  {
    var s := sign + digits;
    if sign == "" {
      assert s == digits;
    } else {
      assert s[0] == sign[0] && s[1..] == digits;
    }
  }

  /** The decimal digits of `n`, without leading zeros. */
  function NatToString(n: nat): (s: string)
    ensures |s| > 0 && AllDigits(s)
  {
    var d := ['0' + ((n % 10) as char)];
    if n < 10 then d else NatToString(n / 10) + d
  }

  /** `Integer.toString(n)` */
  function IntToString(n: int): string
  {
    if n < 0 then "-" + NatToString(-n) else NatToString(n)
  }

  lemma {:induction false} NatToStringValue(n: nat)
    ensures DigitsValue(NatToString(n)) == n
  {
    var s := NatToString(n);
    if n >= 10 {
      NatToStringValue(n / 10);
      assert s[..|s| - 1] == NatToString(n / 10);
    }
  }

  /** `Integer.parseInt(Integer.toString(n)) == n` for every 32-bit `n`. */
  lemma ParseIntToString(n: int)
    requires IntMin <= n <= IntMax
    ensures ParseInt(IntToString(n)) == Some(n)
  {
    var s := IntToString(n);
    if n < 0 {
      var t := NatToString(-n);
      NatToStringValue(-n);
      assert s == "-" + t;
      assert s[0] == '-' && s[1..] == t;
      assert ParseInt(s) == Some(0 - DigitsValue(t));
    } else {
      var t := NatToString(n);
      NatToStringValue(n);
      assert s == t && IsDigit(s[0]);
      assert ParseInt(s) == Some(DigitsValue(t));
    }
  }

  /** ASCII lower-casing of one character. */
  function LowerAscii(c: char): char
  {
    if 'A' <= c <= 'Z' then (c as int + 32) as char else c
  }

  /** `Boolean.parseBoolean(s)`: true exactly for "true" in any letter case. */
  predicate ParseBoolean(s: string)
  {
    |s| == 4 && forall i :: 0 <= i < 4 ==> LowerAscii(s[i]) == "true"[i]
  }

  lemma ParseBooleanExamples()
    ensures ParseBoolean("true") && ParseBoolean("TRUE") && ParseBoolean("True")
    ensures !ParseBoolean("yes") && !ParseBoolean("1") && !ParseBoolean("") && !ParseBoolean("true ")
  {
    assert LowerAscii('T') == 't' && LowerAscii('R') == 'r' && LowerAscii('U') == 'u' && LowerAscii('E') == 'e';
  }

  predicate IsLineTerminator(c: char)
  {
    c == '\n' || c == '\r'
  }

  /** The index of the first '\n' or '\r' in `s`, if any. */
  function FindTerminator(s: string): (r: Option<nat>)
    ensures r.Some? ==> r.value < |s| && IsLineTerminator(s[r.value])
    ensures r.Some? ==> forall j :: 0 <= j < r.value ==> !IsLineTerminator(s[j])
    ensures r.None? ==> forall j :: 0 <= j < |s| ==> !IsLineTerminator(s[j])
  {
    if |s| == 0 then None
    else if IsLineTerminator(s[0]) then Some(0)
    else
      var rest := FindTerminator(s[1..]);
      if rest.None? then None else Some(rest.value + 1)
  }

  /**
   * The successive results of `BufferedReader.readLine()` on `s`: a line
   * ends at '\n', '\r' or "\r\n", the terminator is not part of the line,
   * and a final terminator does not start another line.
   */
  function ReadLines(s: string): (lines: seq<string>)
    ensures forall k, j :: 0 <= k < |lines| && 0 <= j < |lines[k]| ==> !IsLineTerminator(lines[k][j])
    ensures |s| > 0 <==> |lines| > 0
    decreases |s|
  {
    if |s| == 0 then []
    else
      match FindTerminator(s)
      case None => [s]
      case Some(i) =>
        var next := if s[i] == '\r' && i + 1 < |s| && s[i + 1] == '\n' then i + 2 else i + 1;
        [s[..i]] + ReadLines(s[next..])
  }

  /** No character of `s` is a carriage return. */
  predicate NoCarriageReturn(s: string) {
    forall j :: 0 <= j < |s| ==> s[j] != '\r'
  }

  lemma NoCarriageReturnSuffix(s: string, k: nat)
    requires NoCarriageReturn(s) && k <= |s|
    ensures NoCarriageReturn(s[k..])
  {
    var rest := s[k..];
    assert forall j :: 0 <= j < |rest| ==> rest[j] == s[k + j];
  }

  /** "\n" occurs at `j` exactly when the character there is '\n'. */
  lemma NewlineAt(s: string, j: int)
    requires 0 <= j <= |s|
    ensures OccursAt(s, "\n", j) <==> j < |s| && s[j] == '\n'
  {
    if j < |s| {
      assert s[j..j + 1][0] == s[j];
      if s[j] == '\n' {
        assert s[j..j + 1] == "\n";
      }
    }
  }

  /** Without '\r', the first terminator is the first '\n'. */
  lemma FindNewline(s: string)
    requires NoCarriageReturn(s)
    ensures FindTerminator(s) == Find(s, "\n")
  {
    forall j | 0 <= j <= |s|
      ensures OccursAt(s, "\n", j) <==> j < |s| && IsLineTerminator(s[j])
    {
      NewlineAt(s, j);
    }
    var found := FindTerminator(s);
    if found.Some? {
      FindFirst(s, "\n", found.value);
    } else {
      FindOccurrence(s, "\n");
    }
  }

  /**
   * For a text without '\r', the lines are the fields of the split at
   * "\n", without the empty field that a final "\n" leaves.
   */
  lemma {:induction false} ReadLinesNewlines(s: string)
    requires NoCarriageReturn(s)
    ensures ReadLines(s) == DropLastEmpty(Split(s, "\n"))
    decreases |s|
  {
    FindNewline(s);
    var found := Find(s, "\n");
    if found.Some? {
      var i := found.value;
      var rest := s[i + 1..];
      assert s[i] == s[i..i + 1][0] == '\n';
      NoCarriageReturnSuffix(s, i + 1);
      ReadLinesAtNewline(s, i);
      ReadLinesNewlines(rest);
      SplitAt(s, "\n", i);
      DropLastEmptyCons(s[..i], Split(rest, "\n"));
    } else {
      SplitNone(s, "\n");
    }
  }

  /** `parts` without its last element when that one is empty. */
  function DropLastEmpty(parts: seq<string>): (r: seq<string>)
    requires |parts| > 0
    ensures r == parts || (parts[|parts| - 1] == "" && r == parts[..|parts| - 1])
  {
    if parts[|parts| - 1] == "" then parts[..|parts| - 1] else parts
  }

  /** A line that ends at a '\n' is read without it, and reading resumes after it. */
  lemma ReadLinesAtNewline(s: string, i: nat)
    requires FindTerminator(s) == Some(i) && s[i] == '\n'
    ensures ReadLines(s) == [s[..i]] + ReadLines(s[i + 1..])
  {
    var lines := ReadLines(s);
    var after := ReadLines(s[i + 1..]);
    assert lines == [s[..i]] + after;
  }

  /** A head in front of a non-empty tail is kept by `DropLastEmpty`. */
  lemma DropLastEmptyCons(h: string, tail: seq<string>)
    requires |tail| > 0
    ensures DropLastEmpty([h] + tail) == [h] + DropLastEmpty(tail)
  {
    var parts := [h] + tail;
    assert parts[|parts| - 1] == tail[|tail| - 1];
    assert parts[..|parts| - 1] == [h] + tail[..|tail| - 1];
  }
  /** The last line: text with no terminator is one line. */
  lemma ReadLinesLast(a: string)
    requires |a| > 0
    requires forall j :: 0 <= j < |a| ==> !IsLineTerminator(a[j])
    ensures ReadLines(a) == [a]
  {
  }

  /**
   * A line followed by "\n", "\r\n", or a '\r' that no '\n' follows: the
   * line is read without its terminator, and reading goes on after it.
   */
  lemma ReadLinesLine(a: string, t: string, b: string)
    requires forall j :: 0 <= j < |a| ==> !IsLineTerminator(a[j])
    requires t == "\n" || t == "\r\n" || (t == "\r" && (|b| == 0 || b[0] != '\n'))
    ensures ReadLines(a + t + b) == [a] + ReadLines(b)
  {
    var s := a + t + b;
    assert IsLineTerminator(s[|a|]);
    assert forall j :: 0 <= j < |a| ==> s[j] == a[j];
    assert FindTerminator(s) == Some(|a|);
    assert s[..|a|] == a;
    assert s[|a| + |t|..] == b;
    if t == "\r" && |b| > 0 {
      assert s[|a| + 1] == b[0];
    }
  }
}
