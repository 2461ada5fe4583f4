/**
  The Python string operations the input-file readers and the name maps use:
  `strip`, `lower`/`upper`, `startswith`, `split` on one character and `int`
  on a decimal string.
 */
module Text {
  import opened Wrappers
  import opened Grids

  type String = seq<char>

  // ---------------------------------------------------------------------------
  // strip
  // ---------------------------------------------------------------------------

  /** The characters Python's `str.isspace` accepts. */
  predicate IsSpace(ch: char) {
    || ch == ' '
    || '\t' <= ch <= '\r'
    || '\U{1C}' <= ch <= '\U{1F}'
    || ch == '\U{85}' || ch == '\U{A0}' || ch == '\U{1680}'
    || '\U{2000}' <= ch <= '\U{200A}'
    || ch == '\U{2028}' || ch == '\U{2029}' || ch == '\U{202F}' || ch == '\U{205F}' || ch == '\U{3000}'
  }

  /** `s` with its leading whitespace removed. */
  function TrimLeft(s: String): (r: String)
    ensures |r| <= |s|
    ensures forall k :: 0 <= k < |s| - |r| ==> IsSpace(s[k])
    ensures r == [] || !IsSpace(r[0])
    decreases |s|
  {
    if s != [] && IsSpace(s[0]) then TrimLeft(s[1..]) else s
  }

  /** `s` with its trailing whitespace removed. */
  function TrimRight(s: String): (r: String)
    ensures |r| <= |s|
    ensures forall k :: |r| <= k < |s| ==> IsSpace(s[k])
    ensures r == [] || !IsSpace(Last(r))
    decreases |s|
  {
    if s != [] && IsSpace(Last(s)) then TrimRight(s[..|s| - 1]) else s
  }

  /** Trimming on the left keeps a suffix. */
  lemma {:induction false} TrimLeftSuffix(s: String)
    ensures TrimLeft(s) == s[|s| - |TrimLeft(s)|..]
    decreases |s|
  {
    if s != [] && IsSpace(s[0]) {
      TrimLeftSuffix(s[1..]);
    }
  }

  /** Trimming on the right keeps a prefix. */
  lemma {:induction false} TrimRightPrefix(s: String)
    ensures TrimRight(s) == s[..|TrimRight(s)|]
    decreases |s|
  {
    if s != [] && IsSpace(Last(s)) {
      TrimRightPrefix(s[..|s| - 1]);
    }
  }

  /** `r` is the slice of `s` at offset `i`, with only whitespace before and after it. */
  predicate SliceWithin(s: String, r: String, i: int) {
    0 <= i <= |s| - |r| && r == s[i..i + |r|] &&
    (forall k :: 0 <= k < i ==> IsSpace(s[k])) && (forall k :: i + |r| <= k < |s| ==> IsSpace(s[k]))
  }

  /** `str.strip()`: `s` without whitespace at either end. */
  function Strip(s: String): (r: String)
    ensures |r| <= |s|
    ensures r == [] || (!IsSpace(r[0]) && !IsSpace(Last(r)))
  {
    TrimRightPrefix(TrimLeft(s));
    TrimRight(TrimLeft(s))
  }

  /** The stripped string is a slice of `s` with only whitespace around it. */
  lemma StripSlice(s: String)
    ensures exists i {:trigger SliceWithin(s, Strip(s), i)} :: SliceWithin(s, Strip(s), i)
  {
    var l := TrimLeft(s);
    var r := TrimRight(l);
    var i := |s| - |l|;
    TrimLeftSuffix(s);
    TrimRightPrefix(l);
    assert r == s[i..i + |r|];
    assert forall k :: i + |r| <= k < |s| ==> s[k] == l[k - i];
    assert r == Strip(s);
    assert SliceWithin(s, Strip(s), i);
  }

  /** A string with no whitespace at either end strips to itself. */
  lemma StripKeeps(s: String)
    requires s == [] || (!IsSpace(s[0]) && !IsSpace(Last(s)))
    ensures Strip(s) == s
  {
  }

  // ---------------------------------------------------------------------------
  // Case and prefixes
  // ---------------------------------------------------------------------------

  predicate IsUpper(ch: char) {
    'A' <= ch <= 'Z'
  }

  predicate IsLower(ch: char) {
    'a' <= ch <= 'z'
  }

  function LowerChar(ch: char): char {
    if IsUpper(ch) then (ch as int + 32) as char else ch
  }

  function UpperChar(ch: char): char {
    if IsLower(ch) then (ch as int - 32) as char else ch
  }

  /** `str.lower()` on ASCII letters. */
  function Lower(s: String): (r: String)
    ensures |r| == |s|
    ensures forall i :: 0 <= i < |s| ==> !IsUpper(r[i])
    ensures forall i :: 0 <= i < |s| && !IsUpper(s[i]) ==> r[i] == s[i]
  {
    seq(|s|, i requires 0 <= i < |s| => LowerChar(s[i]))
  }

  /** `str.upper()` on ASCII letters. */
  function Upper(s: String): (r: String)
    ensures |r| == |s|
    ensures forall i :: 0 <= i < |s| ==> !IsLower(r[i])
    ensures forall i :: 0 <= i < |s| && !IsLower(s[i]) ==> r[i] == s[i]
  {
    seq(|s|, i requires 0 <= i < |s| => UpperChar(s[i]))
  }

  /** `str.startswith(p)`. */
  predicate StartsWith(s: String, p: String) {
    |p| <= |s| && s[..|p|] == p
  }

  // ---------------------------------------------------------------------------
  // split on one character
  // ---------------------------------------------------------------------------

  /** `s.split(sep)` for a one-character separator: the pieces between
      separators, including empty ones; never an empty list. */
  function Split(s: String, sep: char): (parts: seq<String>)
    ensures |parts| >= 1
    decreases |s|
  {
    if s == [] then [[]]
    else
      var r := Split(s[..|s| - 1], sep);
      if Last(s) == sep then r + [[]]
      else Extend(r, Last(s))
  }

  /** The pieces with `c` added to the last one. */
  function Extend(r: seq<String>, c: char): (r': seq<String>)
    requires |r| >= 1
    ensures |r'| == |r|
  {
    r[..|r| - 1] + [r[|r| - 1] + [c]]
  }

  /** No piece holds the separator. */
  lemma {:induction false} SplitPieces(s: String, sep: char)
    ensures forall k :: 0 <= k < |Split(s, sep)| ==> sep !in Split(s, sep)[k]
    decreases |s|
  {
    if s != [] {
      var r := Split(s[..|s| - 1], sep);
      SplitPieces(s[..|s| - 1], sep);
      if Last(s) != sep {
        var last := r[|r| - 1] + [Last(s)];
        assert forall k :: 0 <= k < |r| - 1 ==> (r[..|r| - 1] + [last])[k] == r[k];
      }
    }
  }

  /** `sep.join(parts)`. */
  function Join(parts: seq<String>, sep: char): String
    decreases |parts|
  {
    if parts == [] then []
    else if |parts| == 1 then parts[0]
    else Join(parts[..|parts| - 1], sep) + [sep] + parts[|parts| - 1]
  }

  /** Joining the pieces with the separator gives back the string. */
  lemma {:induction false} SplitJoin(s: String, sep: char)
    ensures Join(Split(s, sep), sep) == s
    decreases |s|
  {
    if s != [] {
      var s' := s[..|s| - 1];
      SplitJoin(s', sep);
      assert s == s' + [Last(s)];
      if Last(s) != sep {
        SplitSnoc(s', Last(s), sep);
        JoinSnoc(Split(s', sep), Last(s), sep);
      } else {
        SplitSep(s', sep);
        JoinSep(Split(s', sep), sep);
      }
    }
  }

  /** Extending the last piece extends the join. */
  lemma JoinSnoc(r: seq<String>, c: char, sep: char)
    requires |r| >= 1
    ensures Join(Extend(r, c), sep) == Join(r, sep) + [c]
  {
    var r' := Extend(r, c);
    assert r'[..|r'| - 1] == r[..|r| - 1];
  }

  /** A new empty piece adds a separator to the join. */
  lemma JoinSep(r: seq<String>, sep: char)
    requires |r| >= 1
    ensures Join(r + [[]], sep) == Join(r, sep) + [sep]
  {
    assert (r + [[]])[..|r|] == r;
  }

  /** A string without the separator is one piece. */
  lemma {:induction false} SplitNone(s: String, sep: char)
    requires sep !in s
    ensures Split(s, sep) == [s]
    decreases |s|
  {
    if s != [] {
      assert s == s[..|s| - 1] + [Last(s)];
      SplitNone(s[..|s| - 1], sep);
    }
  }

  /** Appending a non-separator character extends the last piece. */
  lemma SplitSnoc(s: String, c: char, sep: char)
    requires c != sep
    ensures Split(s + [c], sep) == Extend(Split(s, sep), c)
  {
    assert (s + [c])[..|s|] == s;
  }

  /** Splitting at one separator splits each side. */
  lemma {:induction false} SplitAt(a: String, b: String, sep: char)
    ensures Split(a + [sep] + b, sep) == Split(a, sep) + Split(b, sep)
    decreases |b|
  {
    if b == [] {
      assert (a + [sep])[..|a|] == a;
      assert a + [sep] + b == a + [sep];
    } else {
      var b' := b[..|b| - 1];
      assert b == b' + [Last(b)];
      assert a + [sep] + b == (a + [sep] + b') + [Last(b)];
      SplitAt(a, b', sep);
      SplitAtLast(Split(a, sep), a + [sep] + b', b', Last(b), sep);
    }
  }

  /** One step of `SplitAt`: when the split of `s` ends with the split of
      `b`, adding a character to both keeps it so. */
  lemma SplitAtLast(x: seq<String>, s: String, b: String, c: char, sep: char)
    requires Split(s, sep) == x + Split(b, sep)
    ensures Split(s + [c], sep) == x + Split(b + [c], sep)
  {
    if c == sep {
      SplitSep(s, sep);
      SplitSep(b, sep);
      assert (x + Split(b, sep)) + [[]] == x + (Split(b, sep) + [[]]);
    } else {
      SplitSnoc(s, c, sep);
      SplitSnoc(b, c, sep);
      ExtendRight(x, Split(b, sep), c);
    }
  }

  /** Appending the separator starts a new empty piece. */
  lemma SplitSep(s: String, sep: char)
    ensures Split(s + [sep], sep) == Split(s, sep) + [[]]
  {
    assert (s + [sep])[..|s|] == s;
  }

  /** Extending a concatenation extends its right part. */
  lemma ExtendRight(x: seq<String>, y: seq<String>, c: char)
    requires |y| >= 1
    ensures Extend(x + y, c) == x + Extend(y, c)
  {
  }

  /** Splitting two separator-free pieces joined by the separator gives them back. */
  lemma SplitTwo(a: String, b: String, sep: char)
    requires sep !in a && sep !in b
    ensures Split(a + [sep] + b, sep) == [a, b]
  {
    SplitAt(a, b, sep);
    SplitNone(a, sep);
    SplitNone(b, sep);
  }

  // ---------------------------------------------------------------------------
  // int
  // ---------------------------------------------------------------------------

  predicate IsDigit(ch: char) {
    '0' <= ch <= '9'
  }

  /** Decimal digits, with single underscores allowed only between two digits. */
  predicate DigitGroups(b: String) {
    && |b| > 0 && IsDigit(b[0]) && IsDigit(Last(b))
    && (forall i :: 0 <= i < |b| ==> IsDigit(b[i]) || b[i] == '_')
    && (forall i, j :: 0 <= i < |b| && 0 <= j < |b| && j == i + 1 ==> b[i] != '_' || b[j] != '_')
  }

  /** The value of a digit string, skipping underscores. */
  function Value(b: String): nat
    decreases |b|
  {
    if b == [] then 0
    else if IsDigit(Last(b)) then Value(b[..|b| - 1]) * 10 + (Last(b) as int - '0' as int)
    else Value(b[..|b| - 1])
  }

  /** Python's `int(s)` on a string: surrounding whitespace, an optional sign,
      then digit groups; `None` where Python raises `ValueError`. */
  function ParseInt(s: String): Option<int> {
    var t := Strip(s);
    if t == [] then None
    else if t[0] == '-' then (if DigitGroups(t[1..]) then Some(0 - Value(t[1..])) else None)
    else if t[0] == '+' then (if DigitGroups(t[1..]) then Some(Value(t[1..])) else None)
    else if DigitGroups(t) then Some(Value(t))
    else None
  }

  function DigitChar(d: nat): char
    requires d < 10
  {
    ('0' as int + d) as char
  }

  /** The decimal digits of `n`, without leading zeros. */
  function ShowNat(n: nat): (r: String)
    ensures |r| >= 1 && forall i :: 0 <= i < |r| ==> IsDigit(r[i])
    decreases n
  {
    if n < 10 then [DigitChar(n)] else ShowNat(n / 10) + [DigitChar(n % 10)]
  }

  /** `str(n)`. */
  function ShowInt(n: int): String {
    if n < 0 then ['-'] + ShowNat(-n) else ShowNat(n)
  }

  lemma {:induction false} ValueShowNat(n: nat)
    ensures Value(ShowNat(n)) == n
    decreases n
  {
    if n >= 10 {
      ValueShowNat(n / 10);
      var s := ShowNat(n / 10) + [DigitChar(n % 10)];
      assert s[..|s| - 1] == ShowNat(n / 10);
    }
  }

  /** A string of digits is a digit group. */
  lemma AllDigits(b: String)
    requires |b| > 0 && forall i :: 0 <= i < |b| ==> IsDigit(b[i])
    ensures DigitGroups(b)
  {
  }

  /** `int(str(n)) == n`. */
  lemma ParseShow(n: int)
    ensures ParseInt(ShowInt(n)) == Some(n)
  {
    if n < 0 {
      var m: nat := -n;
      assert ShowInt(n) == ['-'] + ShowNat(m);
      ParseNegative(m);
    } else {
      assert ShowInt(n) == ShowNat(n);
      ParseNatural(n);
    }
  }

  /** `int` reads the digits of a natural number back. */
  lemma ParseNatural(m: nat)
    ensures ParseInt(ShowNat(m)) == Some(m)
  {
    var d := ShowNat(m);
    assert IsDigit(d[0]) && IsDigit(Last(d));
    StripKeeps(d);
    AllDigits(d);
    ValueShowNat(m);
  }

  /** `int` reads a minus sign and the digits of `m` back as `-m`. */
  lemma ParseNegative(m: nat)
    ensures ParseInt(['-'] + ShowNat(m)) == Some(-(m as int))
  {
    var d := ShowNat(m);
    var s := ['-'] + d;
    assert s[0] == '-' && Last(s) == Last(d) && IsDigit(Last(d));
    StripKeeps(s);
    assert s[1..] == d;
    AllDigits(d);
    ValueShowNat(m);
  }

  /** `int` raises on any string with an ASCII letter in it: stripping keeps
      the letter, and a letter is neither a sign, a digit nor an underscore. */
  lemma ParseRejectsLetter(s: String, i: nat)
    requires i < |s| && (IsUpper(s[i]) || IsLower(s[i]))
    ensures ParseInt(s).None?
  {
    StripSlice(s);
    var t := Strip(s);
    var a :| SliceWithin(s, t, a);
    assert a <= i < a + |t| by {
      assert !IsSpace(s[i]);
    }
    assert t[i - a] == s[i];
    if t[0] == '-' || t[0] == '+' {
      assert i - a >= 1;
      assert t[1..][i - a - 1] == s[i];
      assert !DigitGroups(t[1..]);
    } else {
      assert !DigitGroups(t);
    }
  }

  /** A decimal string never holds a letter, a separator or whitespace. */
  lemma ShowIntPlain(n: int)
    ensures 'x' !in ShowInt(n) && |ShowInt(n)| >= 1
    ensures Lower(ShowInt(n)) == ShowInt(n)
    ensures !IsSpace(ShowInt(n)[0]) && !IsSpace(Last(ShowInt(n)))
  {
    var m: nat := if n < 0 then -n else n;
    assert forall i :: 0 <= i < |ShowInt(n)| ==> ShowInt(n)[i] == '-' || IsDigit(ShowInt(n)[i]);
  }
}
