/**
 * The `java.lang.String` operations the program relies on, over `seq<char>`:
 * `trim`, `isEmpty` after `trim`, `contains`, `toLowerCase`, and `split` on a
 * literal separator, both with limit 2 and without a limit (which drops
 * trailing empty fields). None of the separators used by the program contains a
 * regular-expression metacharacter once escaped, so splitting is literal.
 */
module Text {
  import opened Results

  /** `String.trim()` removes every leading and trailing char at or below U+0020. */
  predicate IsTrimmable(c: char)
  {
    c <= ' '
  }

  function TrimStart(s: string): (r: string)
    ensures |r| <= |s| && r == s[|s| - |r|..]
    ensures |r| > 0 ==> !IsTrimmable(r[0])
    ensures forall i :: 0 <= i < |s| - |r| ==> IsTrimmable(s[i])
    decreases |s|
  {
    if |s| > 0 && IsTrimmable(s[0]) then TrimStart(s[1..]) else s
  }

  function TrimEnd(s: string): (r: string)
    ensures |r| <= |s| && r == s[..|r|]
    ensures |r| > 0 ==> !IsTrimmable(r[|r| - 1])
    ensures forall i :: |r| <= i < |s| ==> IsTrimmable(s[i])
    decreases |s|
  {
    if |s| > 0 && IsTrimmable(s[|s| - 1]) then TrimEnd(s[..|s| - 1]) else s
  }

  /** `String.trim()`. */
  function Trim(s: string): (r: string)
    ensures |r| <= |s|
    ensures |r| > 0 ==> !IsTrimmable(r[0]) && !IsTrimmable(r[|r| - 1])
    ensures |r| == 0 <==> forall i :: 0 <= i < |s| ==> IsTrimmable(s[i])
    ensures (|s| == 0 || (!IsTrimmable(s[0]) && !IsTrimmable(s[|s| - 1]))) ==> r == s
  {
    var t := TrimStart(s);
    var r := TrimEnd(t);
    assert forall i :: |s| - |t| <= i < |s| ==> s[i] == t[i - (|s| - |t|)];
    assert |t| > 0 ==> |r| > 0 by {
      if |t| > 0 {
        assert !IsTrimmable(t[0]);
      }
    }
    r
  }

  /** `s.trim().isEmpty()`. */
  predicate IsBlank(s: string)
  {
    |Trim(s)| == 0
  }

  /** `d` occurs in `s` starting at index `i`. */
  predicate OccursAt(s: string, d: string, i: int)
  {
    0 <= i && i + |d| <= |s| && s[i..i + |d|] == d
  }

  lemma OccursAtTail(s: string, d: string, j: int)
    requires |s| > 0 && j >= 0
    ensures OccursAt(s[1..], d, j) <==> OccursAt(s, d, j + 1)
  {
    if j + |d| <= |s| - 1 {
      assert s[1..][j..j + |d|] == s[j + 1..j + 1 + |d|];
    }
  }

  /** The leftmost occurrence of the non-empty literal `d` in `s`, as the regex engine finds it. */
  function IndexOf(s: string, d: string): (r: Option<nat>)
    requires |d| > 0
    ensures r.Some? ==> OccursAt(s, d, r.value)
    ensures r.Some? ==> forall j :: 0 <= j < r.value ==> !OccursAt(s, d, j)
    ensures r.None? ==> forall j :: !OccursAt(s, d, j)
    decreases |s|
  {
    if |s| < |d| then None
    else if s[..|d|] == d then
      assert s[0..|d|] == s[..|d|];
      Some(0)
    else
      var rest := IndexOf(s[1..], d);
      assert forall j :: 1 <= j ==> (OccursAt(s, d, j) <==> OccursAt(s[1..], d, j - 1)) by {
        forall j | 1 <= j ensures OccursAt(s, d, j) <==> OccursAt(s[1..], d, j - 1) {
          OccursAtTail(s, d, j - 1);
        }
      }
      assert s[0..|d|] == s[..|d|];
      match rest
      case None => None
      case Some(i) => Some(i + 1)
  }

  /** The first index is determined by any occurrence with none before it. */
  lemma IndexOfIs(s: string, d: string, i: nat)
    requires |d| > 0
    requires OccursAt(s, d, i)
    requires forall j :: 0 <= j < i ==> !OccursAt(s, d, j)
    ensures IndexOf(s, d) == Some(i)
  {
  }

  /**
   * In `a + d + b`, the first occurrence of `d` is the one right after `a`,
   * provided some character `d[k]` never appears in `a` nor earlier in `d`.
   */
  lemma IndexOfAfterPrefix(a: string, d: string, b: string, k: nat)
    requires k < |d|
    requires d[k] !in a && d[k] !in d[..k]
    ensures IndexOf(a + d + b, d) == Some(|a|)
  {
    var s := a + d + b;
    assert s[|a|..|a| + |d|] == d;
    forall j | 0 <= j < |a|
      ensures !OccursAt(s, d, j)
    {
      if j + |d| <= |s| {
        assert s[j..j + |d|][k] == s[j + k];
        if j + k < |a| {
          assert s[j + k] == a[j + k];
        } else {
          assert s[j + k] == d[j + k - |a|];
          assert d[..k][j + k - |a|] == d[j + k - |a|];
        }
      }
    }
    IndexOfIs(s, d, |a|);
  }

  /** `split(d, 2)` of `a + d + b` gives back `a` and `b` when `a` cannot hide an earlier `d`. */
  lemma SplitOnceAt(a: string, d: string, b: string, k: nat)
    requires k < |d|
    requires d[k] !in a && d[k] !in d[..k]
    ensures SplitOnce(a + d + b, d) == [a, b]
  {
    var s := a + d + b;
    IndexOfAfterPrefix(a, d, b, k);
    assert s[..|a|] == a;
    assert s[|a| + |d|..] == b;
  }

  /** A string lacking some character of `d` holds no occurrence of `d`. */
  lemma NoOccurrenceWithout(s: string, d: string, k: nat)
    requires k < |d| && d[k] !in s
    ensures IndexOf(s, d) == None
  {
    forall j
      ensures !OccursAt(s, d, j)
    {
      if 0 <= j && j + |d| <= |s| {
        assert s[j..j + |d|][k] == s[j + k];
      }
    }
  }

  /** `s.split(d, 2)`: at most two fields, cut at the leftmost occurrence; empty fields are kept. */
  function SplitOnce(s: string, d: string): (r: seq<string>)
    requires |d| > 0
    ensures |r| == 1 || |r| == 2
    ensures |r| == 1 <==> forall j :: !OccursAt(s, d, j)
    ensures |r| == 1 ==> r[0] == s
    ensures |r| == 2 ==> s == r[0] + d + r[1]
    ensures |r| == 2 ==> forall j :: 0 <= j < |r[0]| ==> !OccursAt(s, d, j)
  {
    match IndexOf(s, d)
    case None => [s]
    case Some(i) =>
      assert s == s[..i] + d + s[i + |d|..];
      [s[..i], s[i + |d|..]]
  }

  /** `s` is `a + d + b` with the cut at the leftmost occurrence of `d`. */
  predicate CutAtFirst(s: string, d: string, a: string, b: string)
  {
    s == a + d + b && forall j :: 0 <= j < |a| ==> !OccursAt(s, d, j)
  }

  /** A cut at the leftmost occurrence is the one `split(d, 2)` makes. */
  lemma SplitOnceCut(s: string, d: string, a: string, b: string)
    requires |d| > 0 && CutAtFirst(s, d, a, b)
    ensures SplitOnce(s, d) == [a, b]
  {
    assert s[|a|..|a| + |d|] == d;
    IndexOfIs(s, d, |a|);
    assert s[..|a|] == a;
    assert s[|a| + |d|..] == b;
  }

  /** Every field between successive leftmost occurrences of `d`, trailing empty fields included. */
  function SplitAll(s: string, d: string): (r: seq<string>)
    requires |d| > 0
    ensures |r| >= 1
    decreases |s|
  {
    match IndexOf(s, d)
    case None => [s]
    case Some(i) => [s[..i]] + SplitAll(s[i + |d|..], d)
  }

  /** Drops the empty fields at the end, as `split` without a limit does. */
  function DropTrailingEmpty(p: seq<string>): (r: seq<string>)
    ensures |r| <= |p| && r == p[..|r|]
    ensures |r| > 0 ==> r[|r| - 1] != ""
    ensures forall i :: |r| <= i < |p| ==> p[i] == ""
    decreases |p|
  {
    if |p| > 0 && p[|p| - 1] == "" then DropTrailingEmpty(p[..|p| - 1]) else p
  }

  /**
   * `s.split(d)` with no limit: the whole string when `d` does not occur,
   * otherwise every field with the trailing empty ones removed (possibly none left).
   */
  function JavaSplit(s: string, d: string): (r: seq<string>)
    requires |d| > 0
  {
    if IndexOf(s, d).None? then [s] else DropTrailingEmpty(SplitAll(s, d))
  }

  /** Fields joined with `d` between neighbours, as the `toFileString` concatenations build them. */
  function Join(fields: seq<string>, d: string): string
    decreases |fields|
  {
    if |fields| == 0 then ""
    else if |fields| == 1 then fields[0]
    else fields[0] + d + Join(fields[1..], d)
  }

  /** A character found in neither the fields nor the separator is not in their join. */
  lemma {:induction false} JoinAvoids(fields: seq<string>, d: string, c: char)
    requires c !in d
    ensures (forall i :: 0 <= i < |fields| ==> c !in fields[i]) ==> c !in Join(fields, d)
    decreases |fields|
  {
    if |fields| >= 2 && forall i :: 0 <= i < |fields| ==> c !in fields[i] {
      assert forall i :: 0 <= i < |fields| - 1 ==> fields[1..][i] == fields[i + 1];
      JoinAvoids(fields[1..], d, c);
      assert c !in fields[0];
    }
  }

  /** Splitting loses nothing: joining the fields again gives back the string. */
  lemma {:induction false} JoinSplitAll(s: string, d: string)
    requires |d| > 0
    ensures Join(SplitAll(s, d), d) == s
    decreases |s|
  {
    var o := IndexOf(s, d);
    if o.None? {
      assert SplitAll(s, d) == [s];
    } else {
      var i := o.value;
      var rest := s[i + |d|..];
      JoinSplitAll(rest, d);
      assert SplitAll(s, d) == [s[..i]] + SplitAll(rest, d);
      Rejoin(s, d, i, rest, SplitAll(rest, d));
    }
  }

  lemma Rejoin(s: string, d: string, i: nat, rest: string, tail: seq<string>)
    requires |d| > 0 && i + |d| <= |s| && s[i..i + |d|] == d
    requires rest == s[i + |d|..]
    requires |tail| >= 1 && Join(tail, d) == rest
    ensures Join([s[..i]] + tail, d) == s
  {
    SplitAround(s, d, i, rest);
    JoinCons(s[..i], tail, d);
  }

  lemma SplitAround(s: string, d: string, i: nat, rest: string)
    requires i + |d| <= |s| && s[i..i + |d|] == d
    requires rest == s[i + |d|..]
    ensures s[..i] + d + rest == s
  {
  }

  lemma JoinCons(h: string, tail: seq<string>, d: string)
    requires |tail| >= 1
    ensures Join([h] + tail, d) == h + d + Join(tail, d)
  {
    assert ([h] + tail)[1..] == tail;
  }

  /**
   * Joining then splitting gives back the fields, provided one character of `d`
   * (its first occurrence in `d` at position `k`) appears in no field.
   */
  lemma {:induction false} SplitAllJoin(fields: seq<string>, d: string, k: nat)
    requires k < |d| && d[k] !in d[..k]
    requires |fields| >= 1
    requires forall i :: 0 <= i < |fields| ==> d[k] !in fields[i]
    ensures SplitAll(Join(fields, d), d) == fields
    decreases |fields|
  {
    if |fields| == 1 {
      NoOccurrenceWithout(fields[0], d, k);
    } else {
      var tail := fields[1..];
      assert forall i :: 0 <= i < |tail| ==> d[k] !in tail[i] by {
        forall i | 0 <= i < |tail| ensures d[k] !in tail[i] {
          assert tail[i] == fields[i + 1];
        }
      }
      SplitAllJoin(tail, d, k);
      assert Join(fields, d) == fields[0] + d + Join(tail, d);
      SplitAllAfterPrefix(fields[0], d, Join(tail, d), k);
      assert fields == [fields[0]] + tail;
    }
  }

  /** A field free of the marker character, then the separator, splits off as the first field. */
  lemma SplitAllAfterPrefix(a: string, d: string, b: string, k: nat)
    requires k < |d| && d[k] !in d[..k] && d[k] !in a
    ensures SplitAll(a + d + b, d) == [a] + SplitAll(b, d)
  {
    var s := a + d + b;
    IndexOfAfterPrefix(a, d, b, k);
    assert s[..|a|] == a;
    assert s[|a| + |d|..] == b;
  }

  /**
   * Java's unlimited `split` inverts `Join` when there are at least two fields,
   * none holding the marker character and the last one non-empty.
   */
  lemma JavaSplitJoin(fields: seq<string>, d: string, k: nat)
    requires k < |d| && d[k] !in d[..k]
    requires |fields| >= 2 && fields[|fields| - 1] != ""
    requires forall i :: 0 <= i < |fields| ==> d[k] !in fields[i]
    ensures JavaSplit(Join(fields, d), d) == fields
  {
    IndexOfAfterPrefix(fields[0], d, Join(fields[1..], d), k);
    SplitAllJoin(fields, d, k);
  }

  /** A one-character separator occurs exactly where that character stands. */
  lemma OccursAtSingle(s: string, c: char, j: int)
    requires 0 <= j < |s|
    ensures OccursAt(s, [c], j) <==> s[j] == c
  {
    assert s[j..j + 1] == [s[j]];
  }

  predicate AllSpaces(s: string)
  {
    forall i :: 0 <= i < |s| ==> s[i] == ' '
  }

  predicate AllEmpty(p: seq<string>)
  {
    forall i :: 0 <= i < |p| ==> p[i] == ""
  }

  /** Splitting on " " yields nothing but empty fields exactly when the string is all spaces. */
  lemma {:induction false} SplitAllOnSpaces(s: string)
    ensures AllEmpty(SplitAll(s, " ")) <==> AllSpaces(s)
    decreases |s|
  {
    match IndexOf(s, " ")
    case None =>
      assert SplitAll(s, " ") == [s];
      if |s| > 0 {
        OccursAtSingle(s, ' ', 0);
        assert !OccursAt(s, " ", 0);
        assert s[0] != ' ';
        assert SplitAll(s, " ")[0] != "";
      }
    case Some(i) =>
      var rest := s[i + 1..];
      SplitAllOnSpaces(rest);
      var p := SplitAll(s, " ");
      assert p == [s[..i]] + SplitAll(rest, " ");
      OccursAtSingle(s, ' ', 0);
      if i == 0 {
        var q := SplitAll(rest, " ");
        assert s[0] == ' ';
        if AllSpaces(s) {
          forall j | 0 <= j < |rest| ensures rest[j] == ' ' {
            assert rest[j] == s[j + 1];
          }
        }
        if AllSpaces(rest) {
          forall j | 1 <= j < |s| ensures s[j] == ' ' {
            assert s[j] == rest[j - 1];
          }
        }
        if AllEmpty(p) {
          forall j | 0 <= j < |q| ensures q[j] == "" {
            assert q[j] == p[j + 1];
          }
        }
        if AllEmpty(q) {
          forall j | 1 <= j < |p| ensures p[j] == "" {
            assert p[j] == q[j - 1];
          }
          assert p[0] == "";
        }
      } else {
        assert p[0] != "";
      }
  }

  /**
   * `s.split(" ")` is empty exactly for a non-empty all-space string; otherwise its
   * first element is the text before the first space.
   */
  lemma JavaSplitOnSpaces(s: string)
    ensures JavaSplit(s, " ") == [] <==> |s| > 0 && AllSpaces(s)
    ensures JavaSplit(s, " ") != [] ==> JavaSplit(s, " ")[0] == SplitOnce(s, " ")[0]
  {
    SplitAllOnSpaces(s);
    match IndexOf(s, " ")
    case None =>
      if |s| > 0 {
        OccursAtSingle(s, ' ', 0);
      }
    case Some(i) =>
      var p := SplitAll(s, " ");
      var r := DropTrailingEmpty(p);
      assert p[0] == s[..i];
      if r != [] {
        assert p[|r| - 1] == r[|r| - 1];
        assert r[0] == p[0];
      }
  }

  /** `s.contains(k)`: case-sensitive substring test; the empty string is in every string. */
  predicate Contains(s: string, k: string)
  {
    exists i | 0 <= i <= |s| - |k| :: OccursAt(s, k, i)
  }

  /**
   * `toLowerCase` in a default locale other than Turkish or Azeri, as far as it
   * can make a command word equal an ASCII keyword: A-Z become a-z and KELVIN
   * SIGN (U+212A) becomes `k`. Every other character either is its own lower
   * case or lowers to something non-ASCII, so leaving it unchanged decides
   * keyword equality the same way. A Turkish locale would lower 'I' to a
   * dotless 'ı' instead; that mapping is not modelled.
   */
  function LowerChar(c: char): char
  {
    if 'A' <= c <= 'Z' then (c as int + 32) as char
    else if c == 'K' then 'k'
    else c
  }

  /** Lower-casing character by character: no ASCII capital letter is left. */
  function ToLower(s: string): (r: string)
    ensures |r| == |s|
    ensures forall i :: 0 <= i < |s| ==> r[i] == LowerChar(s[i])
    ensures forall i :: 0 <= i < |r| ==> !('A' <= r[i] <= 'Z')
  {
    seq(|s|, i requires 0 <= i < |s| => LowerChar(s[i]))
  }

  /** ASCII upper-casing, used to state that command words ignore case. */
  function UpperChar(c: char): char
  {
    if 'a' <= c <= 'z' then (c as int - 32) as char else c
  }

  function ToUpper(s: string): (r: string)
    ensures |r| == |s|
    ensures forall i :: 0 <= i < |s| ==> r[i] == UpperChar(s[i])
  {
    seq(|s|, i requires 0 <= i < |s| => UpperChar(s[i]))
  }

  /** Joining four fields writes the separator three times. */
  lemma JoinFour(a: string, b: string, c: string, e: string, d: string)
    ensures Join([a, b, c, e], d) == a + d + b + d + c + d + e
  {
    assert [c, e][1..] == [e];
    assert Join([c, e], d) == c + d + e;
    assert [b, c, e][1..] == [c, e];
    assert Join([b, c, e], d) == b + d + (c + d + e);
    assert [a, b, c, e][1..] == [b, c, e];
    assert Join([a, b, c, e], d) == a + d + (b + d + (c + d + e));
  }

  lemma JoinFive(a: string, b: string, c: string, e: string, f: string, d: string)
    ensures Join([a, b, c, e, f], d) == a + d + b + d + c + d + e + d + f
  {
    JoinSnoc([a, b, c, e], f, d);
    assert [a, b, c, e] + [f] == [a, b, c, e, f];
    JoinFour(a, b, c, e, d);
  }

  lemma JoinSix(a: string, b: string, c: string, e: string, f: string, g: string, d: string)
    ensures Join([a, b, c, e, f, g], d) == a + d + b + d + c + d + e + d + f + d + g
  {
    JoinSnoc([a, b, c, e, f], g, d);
    assert [a, b, c, e, f] + [g] == [a, b, c, e, f, g];
    JoinFive(a, b, c, e, f, d);
  }

  /** Appending a field appends a separator and the field. */
  lemma {:induction false} JoinSnoc(f: seq<string>, last: string, d: string)
    requires |f| >= 1
    ensures Join(f + [last], d) == Join(f, d) + d + last
    decreases |f|
  {
    if |f| == 1 {
      assert (f + [last])[1..] == [last];
    } else {
      assert (f + [last])[1..] == f[1..] + [last];
      JoinSnoc(f[1..], last, d);
    }
  }

  lemma TrimStartSpace(x: string)
    ensures TrimStart(" " + x) == TrimStart(x)
  {
    assert (" " + x)[1..] == x;
  }

  lemma TrimEndSpace(y: string)
    ensures TrimEnd(y + " ") == TrimEnd(y)
  {
    assert (y + " ")[..|y|] == y;
  }

  /** One space on each side of a text with non-blank ends is removed by `trim`, and nothing else. */
  lemma TrimPadded(s: string)
    requires |s| > 0 && !IsTrimmable(s[0]) && !IsTrimmable(s[|s| - 1])
    ensures Trim(" " + s + " ") == s
  {
    assert " " + s + " " == " " + (s + " ");
    TrimStartSpace(s + " ");
    assert (s + " ")[0] == s[0];
    TrimEndSpace(s);
  }

  /** A text with one character above U+0020 is not blank. */
  lemma NotBlankAt(s: string, i: nat)
    requires i < |s| && !IsTrimmable(s[i])
    ensures !IsBlank(s)
  {
  }

  /** Appending to a text that is not blank leaves it not blank. */
  lemma NotBlankConcat(x: string, y: string)
    requires !IsBlank(x)
    ensures !IsBlank(x + y)
  {
    var i :| 0 <= i < |x| && !IsTrimmable(x[i]);
    NotBlankAt(x + y, i);
  }

  /** A string whose tail from position `k` lacks `d[k]` holds no occurrence of `d`. */
  lemma NoOccurrenceFrom(s: string, d: string, k: nat)
    requires k < |d| && forall i :: k <= i < |s| ==> s[i] != d[k]
    ensures IndexOf(s, d) == None
  {
    forall j
      ensures !OccursAt(s, d, j)
    {
      if 0 <= j && j + |d| <= |s| {
        assert s[j..j + |d|][k] == s[j + k];
      }
    }
  }

  /** The text before the first space, the whole text when there is none. */
  function FirstWord(s: string): (r: string)
    ensures |r| <= |s| && r == s[..|r|]
    ensures ' ' !in r
    ensures |r| < |s| ==> s[|r|] == ' '
    decreases |s|
  {
    if |s| == 0 || s[0] == ' ' then "" else [s[0]] + FirstWord(s[1..])
  }

  /** A word without spaces followed by a space is the first word, whatever comes after. */
  lemma {:induction false} FirstWordOf(w: string, rest: string)
    requires ' ' !in w
    ensures FirstWord(w + " " + rest) == w
    decreases |w|
  {
    if |w| > 0 {
      assert (w + " " + rest)[1..] == w[1..] + " " + rest;
      assert w[0] in w;
      FirstWordOf(w[1..], rest);
      assert w == [w[0]] + w[1..];
    }
  }

  /**
   * `split(" ", 2)` cuts at the end of the first word: its first field is that word,
   * and a second field exists exactly when a space follows it.
   */
  lemma SplitOnceFirstWord(s: string)
    ensures SplitOnce(s, " ")[0] == FirstWord(s)
    ensures |SplitOnce(s, " ")| == 2 <==> |FirstWord(s)| < |s|
  {
    var w := FirstWord(s);
    forall j | 0 <= j < |w| ensures !OccursAt(s, " ", j) {
      OccursAtSingle(s, ' ', j);
      assert s[j] == w[j];
    }
    if |w| < |s| {
      OccursAtSingle(s, ' ', |w|);
      IndexOfIs(s, " ", |w|);
    } else {
      forall j ensures !OccursAt(s, " ", j) {
        if 0 <= j < |s| {
          OccursAtSingle(s, ' ', j);
        }
      }
      IndexOfNone(s, " ");
    }
  }

  /** No occurrence anywhere means the search finds none. */
  lemma IndexOfNone(s: string, d: string)
    requires |d| > 0
    requires forall j :: !OccursAt(s, d, j)
    ensures IndexOf(s, d) == None
  {
  }

  /** Upper-casing keeps spaces where they are and adds none. */
  lemma UpperCharSpace(c: char)
    ensures UpperChar(c) == ' ' <==> c == ' '
  {
  }

  /** Upper-casing and then lower-casing a character is just lower-casing it. */
  lemma LowerUpperChar(c: char)
    ensures LowerChar(UpperChar(c)) == LowerChar(c)
  {
  }

  lemma {:induction false} FirstWordUpper(s: string)
    ensures FirstWord(ToUpper(s)) == ToUpper(FirstWord(s))
    decreases |s|
  {
    if |s| > 0 {
      UpperCharSpace(s[0]);
      assert ToUpper(s)[1..] == ToUpper(s[1..]);
      FirstWordUpper(s[1..]);
      if s[0] != ' ' {
        assert ToUpper([s[0]] + FirstWord(s[1..])) == [UpperChar(s[0])] + ToUpper(FirstWord(s[1..]));
      }
    }
  }

  /** A word already in ASCII lower case is left as it is. */
  lemma ToLowerOfLower(s: string)
    requires forall i :: 0 <= i < |s| ==> 'a' <= s[i] <= 'z'
    ensures ToLower(s) == s
  {
  }

  /** Lower-casing forgets any earlier upper-casing. */
  lemma LowerOfUpper(s: string)
    ensures ToLower(ToUpper(s)) == ToLower(s)
  {
    forall i | 0 <= i < |s| ensures ToLower(ToUpper(s))[i] == ToLower(s)[i] {
      LowerUpperChar(s[i]);
    }
  }

  lemma AllSpacesUpper(s: string)
    ensures AllSpaces(ToUpper(s)) <==> AllSpaces(s)
  {
    forall i | 0 <= i < |s| ensures ToUpper(s)[i] == ' ' <==> s[i] == ' ' {
      UpperCharSpace(s[i]);
    }
  }

  /** A non-blank text stays non-blank with a marker and more text after it. */
  lemma NotBlankWith(x: string, marker: string, y: string)
    requires !IsBlank(x)
    ensures !IsBlank(x + marker + y)
  {
    var i :| 0 <= i < |x| && !IsTrimmable(x[i]);
    var s := x + marker + y;
    assert s[i] == x[i];
    NotBlankAt(s, i);
  }

  /** "w rest" where the rest is "x marker y". */
  lemma Regroup(w: string, x: string, marker: string, y: string)
    ensures w + " " + x + marker + y == w + " " + (x + marker + y)
  {
  }

  /** A word without spaces is its own first word. */
  lemma {:induction false} FirstWordNoSpace(s: string)
    requires ' ' !in s
    ensures FirstWord(s) == s
    decreases |s|
  {
    if |s| > 0 {
      assert s[0] in s;
      assert forall c :: c in s[1..] ==> c in s;
      FirstWordNoSpace(s[1..]);
      assert s == [s[0]] + s[1..];
    }
  }

  /** A text starting with a visible character and lacking `d[k]` after position `k` is not blank and holds no `d`. */
  lemma NotBlankWithout(s: string, d: string, k: nat)
    requires |s| > 0 && !IsTrimmable(s[0])
    requires k < |d| && forall i :: k <= i < |s| ==> s[i] != d[k]
    ensures !IsBlank(s) && IndexOf(s, d) == None
  {
    NotBlankAt(s, 0);
    NoOccurrenceFrom(s, d, k);
  }

  lemma Splice(h: string, a: string, d: string, b: string)
    ensures h + (a + d + b) == h + a + d + b
  {
  }

  lemma Regroup3(a: string, m1: string, b: string, m2: string, c: string)
    ensures a + m1 + b + m2 + c == a + m1 + (b + m2 + c)
  {
  }

  lemma RegroupLine(w: string, a: string, m1: string, b: string, m2: string, c: string)
    ensures w + " " + a + m1 + b + m2 + c == w + " " + (a + m1 + b + m2 + c)
  {
  }
}
