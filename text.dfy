/** String helpers with the meaning of the Python built-ins the scanner relies on:
    lower(), `in` on strings, str.replace(p, ''), re.findall of a quoted segment,
    re.split on whitespace runs, str.strip(), str.split(c), pathlib's stem and suffix,
    and the decimal rendering of an int inside an f-string. */
module Text {

  datatype Option<T> = None | Some(value: T)

  /** Lower-casing of one character (ASCII letters only). */
  function LowerChar(c: char): char
  {
    if 'A' <= c <= 'Z' then (c as int + 32) as char else c
  }

  /** str.lower(), character by character. */
  function Lower(s: string): (r: string)
    ensures |r| == |s|
    ensures forall i :: 0 <= i < |s| ==> r[i] == LowerChar(s[i])
  {
    if s == [] then [] else [LowerChar(s[0])] + Lower(s[1..])
  }

  lemma {:induction false} LowerIdempotent(s: string)
    ensures Lower(Lower(s)) == Lower(s)
  {
    if s != [] {
      assert Lower(s)[1..] == Lower(s[1..]);
      LowerIdempotent(s[1..]);
    }
  }

  lemma {:induction false} LowerAppend(a: string, b: string)
    ensures Lower(a + b) == Lower(a) + Lower(b)
  {
    if a != [] {
      assert (a + b)[1..] == a[1..] + b;
      LowerAppend(a[1..], b);
    }
  }

  /** Python's `needle in hay` for strings: a contiguous occurrence; the empty needle is in everything. */
  predicate Contains(hay: string, needle: string)
    decreases |hay|
  {
    needle <= hay || (hay != [] && Contains(hay[1..], needle))
  }

  predicate OccursAt(hay: string, needle: string, i: int)
  {
    0 <= i <= |hay| - |needle| && hay[i..i + |needle|] == needle
  }

  /** Contains agrees with the textbook definition by position. */
  lemma {:induction false} ContainsAt(hay: string, needle: string)
    ensures Contains(hay, needle) <==> exists i :: OccursAt(hay, needle, i)
    decreases |hay|
  {
    if needle <= hay {
      assert OccursAt(hay, needle, 0);
    } else if hay == [] {
    } else {
      ContainsAt(hay[1..], needle);
      if Contains(hay[1..], needle) {
        var i :| OccursAt(hay[1..], needle, i);
        assert hay[i + 1..i + 1 + |needle|] == hay[1..][i..i + |needle|];
        assert OccursAt(hay, needle, i + 1);
      }
      if exists i :: OccursAt(hay, needle, i) {
        var i :| OccursAt(hay, needle, i);
        assert i > 0;
        assert hay[1..][i - 1..i - 1 + |needle|] == hay[i..i + |needle|];
        assert OccursAt(hay[1..], needle, i - 1);
      }
    }
  }

  lemma {:induction false} ContainsEmpty(hay: string)
    ensures Contains(hay, "")
  {
  }

  /** The characters Python's str.isspace() accepts; re's \s and str.strip() use the same set. */
  predicate IsSpace(c: char)
  {
    c == ' ' || c == '\t' || c == '\n' || c == '\r' || c == '\U{0B}' || c == '\U{0C}'
    || ('\U{1C}' <= c <= '\U{1F}') || c == '\U{85}' || c == '\U{A0}' || c == '\U{1680}'
    || ('\U{2000}' <= c <= '\U{200A}') || c == '\U{2028}' || c == '\U{2029}'
    || c == '\U{202F}' || c == '\U{205F}' || c == '\U{3000}'
  }

  predicate NoSpace(s: string)
  {
    forall i :: 0 <= i < |s| ==> !IsSpace(s[i])
  }

  /** s.replace(pat, ''): every non-overlapping occurrence, scanning left to right, is deleted.
      For an empty pattern Python's replace with '' returns s unchanged. */
  function RemoveAll(s: string, pat: string): (r: string)
    ensures |r| <= |s|
    ensures pat != [] && !Contains(s, pat) ==> r == s
    decreases |s|
  {
    if pat == [] || s == [] then s
    else if pat <= s then RemoveAll(s[|pat|..], pat)
    else [s[0]] + RemoveAll(s[1..], pat)
  }

  /** Removing a string from itself leaves nothing. */
  lemma RemoveAllSelf(pat: string)
    ensures RemoveAll(pat, pat) == ""
  {
    if pat != [] {
      assert pat[|pat|..] == [];
    }
  }

  /** A prefix that cannot start an occurrence (it lacks the pattern's first character) survives removal. */
  lemma {:induction false} RemoveAllSkips(a: string, rest: string, pat: string)
    requires pat != [] && pat[0] !in a
    ensures RemoveAll(a + rest, pat) == a + RemoveAll(rest, pat)
    decreases |a|
  {
    if a != [] {
      var s := a + rest;
      assert s[0] == a[0] && a[0] != pat[0];
      assert !(pat <= s);
      assert s[1..] == a[1..] + rest;
      RemoveAllSkips(a[1..], rest, pat);
      assert RemoveAll(s, pat) == [s[0]] + RemoveAll(s[1..], pat);
      assert [a[0]] + a[1..] == a;
    } else {
      assert a + rest == rest;
    }
  }

  /** An occurrence at the very front is removed and scanning resumes after it. */
  lemma RemoveAllFront(rest: string, pat: string)
    requires pat != []
    ensures RemoveAll(pat + rest, pat) == RemoveAll(rest, pat)
  {
    assert pat <= pat + rest;
    assert (pat + rest)[|pat|..] == rest;
  }

  /** Index of the first occurrence of c in s, if any. */
  function IndexOf(s: string, c: char): (r: Option<nat>)
    ensures r.None? <==> c !in s
    ensures r.Some? ==> r.value < |s| && s[r.value] == c && c !in s[..r.value]
  {
    if s == [] then None
    else if s[0] == c then Some(0)
    else match IndexOf(s[1..], c)
      case None => None
      case Some(j) => assert s[..j + 1] == [s[0]] + s[1..][..j]; Some(j + 1)
  }

  /** re.findall(r'"([^"]*)"', s): pairs quote characters from the left and returns what each pair encloses;
      a trailing unpaired quote encloses nothing. */
  function FindQuoted(s: string): (r: seq<string>)
    ensures forall k :: 0 <= k < |r| ==> '"' !in r[k]
    ensures '"' !in s ==> r == []
    decreases |s|
  {
    match IndexOf(s, '"')
    case None => []
    case Some(i) =>
      var rest := s[i + 1..];
      match IndexOf(rest, '"')
      case None => []
      case Some(j) => [rest[..j]] + FindQuoted(rest[j + 1..])
  }

  /** The split of s into maximal runs of non-space characters, with `cur` the run read so far. */
  function WordsFrom(s: string, cur: string): (r: seq<string>)
    ensures forall k :: 0 <= k < |r| ==> r[k] != [] && (NoSpace(cur) ==> NoSpace(r[k]))
    decreases |s|
  {
    if s == [] then (if cur == [] then [] else [cur])
    else if IsSpace(s[0]) then (if cur == [] then [] else [cur]) + WordsFrom(s[1..], [])
    else WordsFrom(s[1..], cur + [s[0]])
  }

  /** The non-empty items of re.split(r'\s+', s.strip()): strip removes the whitespace at both ends,
      so the only empty item split can yield is the single one of an all-space string. */
  function Words(s: string): (r: seq<string>)
    ensures forall k :: 0 <= k < |r| ==> r[k] != [] && NoSpace(r[k])
  {
    WordsFrom(s, [])
  }

  lemma {:induction false} WordsFromRun(w: string, rest: string, cur: string)
    requires NoSpace(w)
    ensures WordsFrom(w + rest, cur) == WordsFrom(rest, cur + w)
    decreases |w|
  {
    if w != [] {
      assert !IsSpace(w[0]);
      assert (w + rest)[0] == w[0];
      assert (w + rest)[1..] == w[1..] + rest;
      assert cur + [w[0]] + w[1..] == cur + w;
      WordsFromRun(w[1..], rest, cur + [w[0]]);
    } else {
      assert w + rest == rest && cur + w == cur;
    }
  }

  /** A single space-free word is its own only token. */
  lemma WordsOne(w: string)
    requires w != [] && NoSpace(w)
    ensures Words(w) == [w]
  {
    WordsFromRun(w, [], []);
    assert w + [] == w;
    assert [] + w == w;
  }

  /** Two space-free words separated by one space are two tokens. */
  lemma WordsTwo(a: string, b: string)
    requires a != [] && b != [] && NoSpace(a) && NoSpace(b)
    ensures Words(a + " " + b) == [a, b]
  {
    assert a + " " + b == a + ([' '] + b);
    WordsFromRun(a, [' '] + b, []);
    assert [] + a == a;
    assert ([' '] + b)[1..] == b;
    WordsFromRun(b, [], []);
    assert b + [] == b;
    assert [] + b == b;
  }

  /** str.split(c): the pieces between occurrences of c, always at least one. */
  function SplitOn(s: string, c: char): (r: seq<string>)
    ensures |r| >= 1
    ensures forall k :: 0 <= k < |r| ==> c !in r[k]
    decreases |s|
  {
    match IndexOf(s, c)
    case None => [s]
    case Some(i) => [s[..i]] + SplitOn(s[i + 1..], c)
  }

  function Join(parts: seq<string>, sep: string): string
  {
    if parts == [] then ""
    else if |parts| == 1 then parts[0]
    else parts[0] + sep + Join(parts[1..], sep)
  }

  lemma JoinCons(p: string, rest: seq<string>, sep: string)
    requires rest != []
    ensures Join([p] + rest, sep) == p + sep + Join(rest, sep)
  {
    assert ([p] + rest)[1..] == rest;
  }

  lemma {:induction false} SplitJoin(s: string, c: char)
    ensures Join(SplitOn(s, c), [c]) == s
    decreases |s|
  {
    match IndexOf(s, c)
    case None =>
    case Some(i) =>
      var tail := SplitOn(s[i + 1..], c);
      assert SplitOn(s, c) == [s[..i]] + tail;
      SplitJoin(s[i + 1..], c);
      JoinCons(s[..i], tail, [c]);
      assert s == s[..i] + [c] + s[i + 1..];
  }

  /** Splitting a join at a separator that no part contains gives the parts back. */
  lemma {:induction false} JoinSplit(parts: seq<string>, c: char)
    requires parts != []
    requires forall k :: 0 <= k < |parts| ==> c !in parts[k]
    ensures SplitOn(Join(parts, [c]), c) == parts
    decreases |parts|
  {
    if |parts| > 1 {
      var p := parts[0];
      var rest := parts[1..];
      var s := Join(parts, [c]);
      assert s == p + [c] + Join(rest, [c]);
      assert s[|p|] == c;
      assert s[..|p|] == p;
      assert IndexOf(s, c) == Some(|p|);
      assert s[|p| + 1..] == Join(rest, [c]);
      JoinSplit(rest, c);
      assert parts == [p] + rest;
    }
  }

  lemma SplitTwo(a: string, b: string, c: char)
    requires c !in a && c !in b
    ensures SplitOn(a + [c] + b, c) == [a, b]
  {
    var s := a + [c] + b;
    assert s[|a|] == c;
    assert c !in s[..|a|] by { assert s[..|a|] == a; }
    assert IndexOf(s, c) == Some(|a|);
    assert s[|a| + 1..] == b;
    assert s[..|a|] == a;
  }

  /** str.strip(): drops the whitespace at both ends. */
  function Strip(s: string): (r: string)
    ensures |r| <= |s|
    ensures r != [] ==> !IsSpace(r[0]) && !IsSpace(r[|r| - 1])
    ensures NoSpace(s) ==> r == s
  {
    StripEnd(StripStart(s))
  }

  function StripStart(s: string): (r: string)
    ensures |r| <= |s| && (r != [] ==> !IsSpace(r[0]))
    ensures r == s[|s| - |r|..]
    ensures NoSpace(s) ==> r == s
  {
    if s != [] && IsSpace(s[0]) then StripStart(s[1..]) else s
  }

  function StripEnd(s: string): (r: string)
    ensures |r| <= |s| && (r != [] ==> !IsSpace(r[|r| - 1]))
    ensures r == s[..|r|]
    ensures r != [] && s != [] ==> r[0] == s[0]
    ensures NoSpace(s) ==> r == s
  {
    if s != [] && IsSpace(s[|s| - 1]) then StripEnd(s[..|s| - 1]) else s
  }

  /** Index of the last occurrence of c in s, if any (str.rfind). */
  function LastIndexOf(s: string, c: char): (r: Option<nat>)
    ensures r.None? <==> c !in s
    ensures r.Some? ==> r.value < |s| && s[r.value] == c && c !in s[r.value + 1..]
  {
    if s == [] then None
    else if s[|s| - 1] == c then Some(|s| - 1)
    else
      var r := LastIndexOf(s[..|s| - 1], c);
      assert r.Some? ==> s[r.value + 1..] == s[..|s| - 1][r.value + 1..] + [s[|s| - 1]];
      r
  }

  /** The position at which pathlib splits a file name into stem and suffix: the last dot,
      provided it is neither the first nor the last character. */
  function SuffixStart(name: string): (r: Option<nat>)
    ensures r.Some? ==> 0 < r.value < |name| - 1 && name[r.value] == '.'
  {
    match LastIndexOf(name, '.')
    case Some(i) => if 0 < i < |name| - 1 then Some(i) else None
    case None => None
  }

  /** PurePath(name).suffix. */
  function Suffix(name: string): (r: string)
    ensures r == [] || (|r| >= 2 && r[0] == '.' && '.' !in r[1..])
  {
    match SuffixStart(name)
    case Some(i) => name[i..]
    case None => []
  }

  /** PurePath(name).stem. */
  function Stem(name: string): (r: string)
  {
    match SuffixStart(name)
    case Some(i) => name[..i]
    case None => name
  }

  /** Stem and suffix split the name without losing a character. */
  lemma StemSuffix(name: string)
    ensures Stem(name) + Suffix(name) == name
  {
  }

  function DigitChar(d: nat): char
    requires d < 10
  {
    ('0' as int + d) as char
  }

  predicate IsDigit(c: char)
  {
    '0' <= c <= '9'
  }

  /** str(n) for a natural number. */
  function Decimal(n: nat): (r: string)
    ensures r != [] && forall i :: 0 <= i < |r| ==> IsDigit(r[i])
  {
    if n < 10 then [DigitChar(n)] else Decimal(n / 10) + [DigitChar(n % 10)]
  }

  /** int(s) for a string of digits. */
  function ParseDecimal(s: string): nat
    requires forall i :: 0 <= i < |s| ==> IsDigit(s[i])
  {
    if s == [] then 0
    else
      assert IsDigit(s[|s| - 1]);
      10 * ParseDecimal(s[..|s| - 1]) + (s[|s| - 1] as int - '0' as int)
  }

  lemma {:induction false} DecimalRoundTrip(n: nat)
    ensures ParseDecimal(Decimal(n)) == n
  {
    if n >= 10 {
      var d := Decimal(n);
      assert d[..|d| - 1] == Decimal(n / 10);
      DecimalRoundTrip(n / 10);
    }
  }

  lemma DecimalInjective(m: nat, n: nat)
    requires Decimal(m) == Decimal(n)
    ensures m == n
  {
    DecimalRoundTrip(m);
    DecimalRoundTrip(n);
  }

  /** The parts one after another. */
  function Concat(parts: seq<string>): string
  {
    if parts == [] then "" else Concat(parts[..|parts| - 1]) + parts[|parts| - 1]
  }

  lemma {:induction false} ConcatAppend(parts: seq<string>, part: string)
    ensures Concat(parts + [part]) == Concat(parts) + part
  {
    assert (parts + [part])[..|parts|] == parts;
  }

  lemma {:induction false} ConcatCons(part: string, parts: seq<string>)
    ensures Concat([part] + parts) == part + Concat(parts)
    decreases |parts|
  {
    if parts == [] {
      assert [part] + parts == [part];
      assert [part][..0] == [];
    } else {
      var init := parts[..|parts| - 1];
      var last := parts[|parts| - 1];
      assert [part] + parts == ([part] + init) + [last];
      ConcatAppend([part] + init, last);
      ConcatCons(part, init);
      assert parts == init + [last];
      ConcatAppend(init, last);
    }
  }
}
