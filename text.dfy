/** String helpers mirroring the PHP built-ins the controller relies on:
    `trim`, `strtolower`, `array_unique`, `ctype_digit`, `(int)` on a digit
    string, and substring search. */
module Text {

  type String = seq<char>

  /** Characters stripped by PHP's `trim` with its default character list:
      space, tab, line feed, carriage return, NUL and vertical tab. */
  predicate IsTrimChar(c: char) {
    c == ' ' || c == '\t' || c == '\n' || c == '\r' || c == '\0' || c == '\U{000B}'
  }

  /** `t` occurs as a contiguous piece of `s`. */
  ghost predicate IsInfix(t: String, s: String) {
    exists i, j :: 0 <= i <= j <= |s| && s[i..j] == t
  }

  lemma InfixOfSlice(t: String, s: String, lo: nat, hi: nat)
    requires lo <= hi <= |s|
    requires IsInfix(t, s[lo..hi])
    ensures IsInfix(t, s)
  {
    var i, j :| 0 <= i <= j <= hi - lo && s[lo..hi][i..j] == t;
    assert forall k :: 0 <= k < j - i ==> s[lo..hi][i..j][k] == s[lo + i..lo + j][k];
    assert s[lo + i..lo + j] == t;
  }

  lemma InfixTransitive(t: String, u: String, s: String)
    requires IsInfix(t, u) && IsInfix(u, s)
    ensures IsInfix(t, s)
  {
    var i, j :| 0 <= i <= j <= |s| && s[i..j] == u;
    InfixOfSlice(t, s, i, j);
  }

  /** Substring containment, the model of SQL `LIKE '%needle%'`. */
  predicate Contains(hay: String, needle: String) {
    exists i :: 0 <= i <= |hay| - |needle| && StartsWithAt(hay, needle, i)
  }

  predicate StartsWithAt(hay: String, needle: String, i: int)
    requires 0 <= i <= |hay| - |needle|
  {
    hay[i..i + |needle|] == needle
  }

  // ---------------------------------------------------------------- trim

  /** Index of the first character that `trim` keeps (or |s|). */
  function TrimStart(s: String): (i: nat)
    ensures i <= |s|
    ensures forall k :: 0 <= k < i ==> IsTrimChar(s[k])
    ensures i < |s| ==> !IsTrimChar(s[i])
  {
    if |s| > 0 && IsTrimChar(s[0]) then 1 + TrimStart(s[1..]) else 0
  }

  /** Length of `s` without its trailing run of trim characters. */
  function TrimmedLength(s: String): (n: nat)
    ensures n <= |s|
    ensures forall k :: n <= k < |s| ==> IsTrimChar(s[k])
    ensures 0 < n ==> !IsTrimChar(s[n - 1])
  {
    if |s| > 0 && IsTrimChar(s[|s| - 1]) then TrimmedLength(s[..|s| - 1]) else |s|
  }

  /** Index just past the last character that `trim` keeps. */
  function TrimEnd(s: String): (j: nat)
    ensures TrimStart(s) <= j <= |s|
    ensures forall k :: j <= k < |s| ==> IsTrimChar(s[k])
    ensures TrimStart(s) < j ==> !IsTrimChar(s[j - 1])
  {
    var n := TrimmedLength(s);
    if n < TrimStart(s) then TrimStart(s) else n
  }

  /** PHP `trim($s)`: drop the leading and the trailing run of trim characters. */
  function Trim(s: String): (r: String)
    ensures |r| <= |s|
    ensures r == s[TrimStart(s)..TrimEnd(s)]
    ensures r != [] ==> !IsTrimChar(r[0]) && !IsTrimChar(r[|r| - 1])
  {
    s[TrimStart(s)..TrimEnd(s)]
  }

  /** A trimmed string neither starts nor ends with a trim character. */
  predicate IsTrimmed(s: String) {
    s == [] || (!IsTrimChar(s[0]) && !IsTrimChar(s[|s| - 1]))
  }

  lemma TrimIsInfix(s: String)
    ensures IsInfix(Trim(s), s)
  {
    assert s[TrimStart(s)..TrimEnd(s)] == Trim(s);
  }

  /** Trimming changes nothing on a string that is already trimmed, so
      trimming twice is trimming once. */
  lemma TrimOfTrimmed(s: String)
    requires IsTrimmed(s)
    ensures Trim(s) == s
  {
    if s != [] {
      assert TrimStart(s) == 0;
      assert TrimmedLength(s) == |s|;
    }
  }

  lemma TrimIdempotent(s: String)
    ensures Trim(Trim(s)) == Trim(s)
  {
    TrimOfTrimmed(Trim(s));
  }

  // ------------------------------------------------------------ lowering

  /** ASCII lower-casing, as PHP 8's `strtolower`. */
  function LowerChar(c: char): char {
    if 'A' <= c <= 'Z' then (c as int + 32) as char else c
  }

  function Lower(s: String): (r: String)
    ensures |r| == |s|
    ensures forall k :: 0 <= k < |s| ==> r[k] == LowerChar(s[k])
  {
    seq(|s|, k requires 0 <= k < |s| => LowerChar(s[k]))
  }

  // ------------------------------------------------------ array_unique

  predicate NoDups<T(==)>(s: seq<T>) {
    forall i, j :: 0 <= i < j < |s| ==> s[i] != s[j]
  }

  /** `array_values(array_unique($s))`: the elements of `s` in order of
      first occurrence, each once. */
  function Unique<T(==,!new)>(s: seq<T>): (r: seq<T>)
    ensures NoDups(r)
    ensures forall x :: x in r <==> x in s
    ensures |r| <= |s|
  {
    if s == [] then []
    else
      var u := Unique(s[..|s| - 1]);
      assert forall x :: x in s <==> x in s[..|s| - 1] || x == s[|s| - 1];
      if s[|s| - 1] in u then u else u + [s[|s| - 1]]
  }

  lemma {:induction false} UniqueOfNoDups<T(!new)>(s: seq<T>)
    requires NoDups(s)
    ensures Unique(s) == s
  {
    if s != [] {
      var init := s[..|s| - 1];
      assert NoDups(init);
      UniqueOfNoDups(init);
      assert s[|s| - 1] !in init;
      assert init + [s[|s| - 1]] == s;
    }
  }

  /** Some occurrence of `x` in `s` comes before every occurrence of `y`. */
  ghost predicate Before<T>(s: seq<T>, x: T, y: T) {
    exists a :: 0 <= a < |s| && s[a] == x && forall b :: 0 <= b < |s| && s[b] == y ==> a < b
  }

  lemma BeforeSnoc<T>(s: seq<T>, z: T, x: T, y: T)
    requires Before(s, x, y)
    ensures Before(s + [z], x, y)
  {
    var a :| 0 <= a < |s| && s[a] == x && forall b :: 0 <= b < |s| && s[b] == y ==> a < b;
    assert (s + [z])[a] == x;
    forall b | 0 <= b < |s + [z]| && (s + [z])[b] == y ensures a < b {
      if b < |s| { assert s[b] == y; }
    }
  }

  lemma BeforeNewLast<T>(s: seq<T>, x: T, y: T)
    requires x in s && y !in s
    ensures Before(s + [y], x, y)
  {
    var a :| 0 <= a < |s| && s[a] == x;
    assert (s + [y])[a] == x;
    forall b | 0 <= b < |s + [y]| && (s + [y])[b] == y ensures a < b {
      assert b == |s|;
    }
  }

  /** `array_unique` keeps the first occurrence of each value, so the
      result lists the values in the order they first appear in `s`. */
  lemma {:induction false} UniqueKeepsFirstOccurrenceOrder<T(!new)>(s: seq<T>)
    ensures forall i, j :: 0 <= i < j < |Unique(s)| ==> Before(s, Unique(s)[i], Unique(s)[j])
    decreases |s|
  {
    if s != [] {
      var init := s[..|s| - 1];
      var last := s[|s| - 1];
      assert s == init + [last];
      var u := Unique(init);
      UniqueKeepsFirstOccurrenceOrder(init);
      var r := Unique(s);
      forall i, j | 0 <= i < j < |r| ensures Before(s, r[i], r[j]) {
        if j < |u| {
          assert r[i] == u[i] && r[j] == u[j];
          BeforeSnoc(init, last, u[i], u[j]);
        } else {
          assert r[j] == last && last !in init && r[i] == u[i];
          BeforeNewLast(init, u[i], last);
        }
      }
    }
  }

  /** `array_slice($s, 0, $n)`. */
  function Take<T>(s: seq<T>, n: nat): (r: seq<T>)
    ensures |r| == (if |s| < n then |s| else n)
    ensures r == s[..|r|]
  {
    if |s| < n then s else s[..n]
  }

  /** At most `n` distinct elements of `s`, taken in order of first
      occurrence; the model of `SELECT DISTINCT ... LIMIT n` scanning rows
      in table order. */
  function FirstDistinct<T(==,!new)>(s: seq<T>, n: nat): (r: seq<T>)
    ensures NoDups(r)
    ensures |r| <= n
    ensures forall x :: x in r ==> x in s
    ensures |r| < n ==> forall x :: x in s ==> x in r
    ensures n > 0 ==> (r == [] <==> s == [])
  {
    var u := Unique(s);
    var r := Take(u, n);
    assert forall x :: x in r ==> x in u;
    assert n > 0 && s != [] ==> s[0] in u && u != [];
    r
  }

  // --------------------------------------------------------- digits

  predicate IsDigit(c: char) {
    '0' as int <= c as int <= '9' as int
  }

  /** PHP `ctype_digit($s)` on a string: non-empty and decimal digits only. */
  predicate IsDigits(s: String) {
    |s| > 0 && forall k :: 0 <= k < |s| ==> IsDigit(s[k])
  }

  /** `(int) $s` for a digit string (integer overflow is not modelled). */
  function DigitsValue(s: String): (v: nat)
    requires forall k :: 0 <= k < |s| ==> IsDigit(s[k])
  {
    if s == [] then 0
    else
      assert IsDigit(s[|s| - 1]);
      10 * DigitsValue(s[..|s| - 1]) + (s[|s| - 1] as int - '0' as int)
  }

  /** The decimal digits of `n`, as PHP's string conversion of an integer
      writes them; reading them back gives `n`. */
  function DecimalString(n: nat): (s: String)
    ensures IsDigits(s)
    ensures DigitsValue(s) == n
  {
    var last := ('0' as int + n % 10) as char;
    if n < 10 then [last]
    else
      var init := DecimalString(n / 10);
      var s := init + [last];
      assert s[..|s| - 1] == init;
      s
  }
}
