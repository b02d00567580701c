/** `parseIdentifiers`: the free-text identifier box is split on runs of
    separators, each piece is trimmed, empty pieces are dropped and each
    token is kept once, in order of first occurrence. */
module Identifiers {
  import opened Text

  /** The pattern's character class `[\r\n,\t\s]`: ASCII white space
      (space, tab, line feed, vertical tab, form feed, carriage return) and
      the comma. */
  predicate IsSeparator(c: char) {
    c == ' ' || c == '\t' || c == '\n' || c == '\r' || c == '\U{000B}' || c == '\U{000C}' || c == ','
  }

  predicate NoSeparator(s: String) {
    forall k :: 0 <= k < |s| ==> !IsSeparator(s[k])
  }

  /** Index of the first separator of `s`, or |s|. */
  function FirstSeparator(s: String): (k: nat)
    ensures k <= |s|
    ensures forall i :: 0 <= i < k ==> !IsSeparator(s[i])
    ensures k < |s| ==> IsSeparator(s[k])
  {
    if s == [] || IsSeparator(s[0]) then 0 else 1 + FirstSeparator(s[1..])
  }

  /** Length of the run of separators that `s` starts with. */
  function SeparatorRun(s: String): (n: nat)
    ensures n <= |s|
    ensures forall i :: 0 <= i < n ==> IsSeparator(s[i])
    ensures n < |s| ==> !IsSeparator(s[n])
  {
    if s != [] && IsSeparator(s[0]) then 1 + SeparatorRun(s[1..]) else 0
  }

  /** PHP `preg_split('/[\r\n,\t\s]+/u', $s)`: the pieces between maximal
      runs of separators, including the empty piece before a leading run
      and after a trailing one. */
  function Split(s: String): (pieces: seq<String>)
    ensures |pieces| >= 1
    ensures forall p :: p in pieces ==> NoSeparator(p)
    decreases |s|
  {
    var k := FirstSeparator(s);
    if k == |s| then [s]
    else
      var rest := s[k..];
      var n := SeparatorRun(rest);
      [s[..k]] + Split(rest[n..])
  }

  predicate AllSeparators(s: String) {
    forall k :: 0 <= k < |s| ==> IsSeparator(s[k])
  }

  /** The maximal separator runs of `s`, one between each two pieces of
      `Split(s)`. */
  function Runs(s: String): (runs: seq<String>)
    ensures |runs| + 1 == |Split(s)|
    ensures forall r :: r in runs ==> r != [] && AllSeparators(r)
    decreases |s|
  {
    var k := FirstSeparator(s);
    if k == |s| then []
    else
      var rest := s[k..];
      var n := SeparatorRun(rest);
      [rest[..n]] + Runs(rest[n..])
  }

  /** `pieces[0] + runs[0] + pieces[1] + … + pieces[|runs|]`. */
  function Join(pieces: seq<String>, runs: seq<String>): String
    requires |runs| + 1 == |pieces|
    decreases |runs|
  {
    if runs == [] then pieces[0] else pieces[0] + runs[0] + Join(pieces[1..], runs[1..])
  }

  lemma JoinCons(p: String, r: String, pieces: seq<String>, runs: seq<String>)
    requires |runs| + 1 == |pieces|
    ensures Join([p] + pieces, [r] + runs) == p + r + Join(pieces, runs)
  {
    assert ([p] + pieces)[1..] == pieces;
    assert ([r] + runs)[1..] == runs;
  }

  lemma ThreeParts(s: String, k: nat, n: nat)
    requires k <= |s| && n <= |s| - k
    ensures s == s[..k] + s[k..][..n] + s[k..][n..]
  {
    assert s[k..][..n] + s[k..][n..] == s[k..];
    assert s[..k] + s[k..] == s;
  }

  /** One step of the split: the first piece, the run after it, and the
      pieces and runs of what follows. */
  lemma SplitStep(s: String)
    requires FirstSeparator(s) < |s|
    ensures var k := FirstSeparator(s);
            var n := SeparatorRun(s[k..]);
            && Split(s) == [s[..k]] + Split(s[k..][n..])
            && Runs(s) == [s[k..][..n]] + Runs(s[k..][n..])
            && s == s[..k] + s[k..][..n] + s[k..][n..]
  {
    var k := FirstSeparator(s);
    ThreeParts(s, k, SeparatorRun(s[k..]));
  }

  /** The split loses nothing: the text is its pieces, which hold no
      separator, joined by non-empty runs of separators. */
  lemma {:induction false} SplitJoinsBack(s: String)
    ensures Join(Split(s), Runs(s)) == s
    decreases |s|
  {
    var k := FirstSeparator(s);
    if k == |s| {
      assert Split(s) == [s] && Runs(s) == [];
    } else {
      var rest := s[k..];
      var n := SeparatorRun(rest);
      var tail := rest[n..];
      SplitStep(s);
      SplitJoinsBack(tail);
      JoinCons(s[..k], rest[..n], Split(tail), Runs(tail));
    }
  }

  /** A text that does not start with a separator has a non-empty first
      piece. */
  lemma FirstPieceNonEmpty(s: String)
    requires s != [] && !IsSeparator(s[0])
    ensures Split(s)[0] != []
  {
    var k := FirstSeparator(s);
    assert k >= 1;
    if k < |s| {
      SplitStep(s);
    }
  }

  /** What follows a run starts a non-empty piece whenever another piece
      comes after it. */
  lemma TailFirstPiece(s: String)
    requires FirstSeparator(s) < |s|
    ensures var rest := s[FirstSeparator(s)..];
            var tail := rest[SeparatorRun(rest)..];
            |Split(tail)| >= 2 ==> Split(tail)[0] != []
  {
    var rest := s[FirstSeparator(s)..];
    var n := SeparatorRun(rest);
    var tail := rest[n..];
    if |Split(tail)| >= 2 {
      assert FirstSeparator(tail) < |tail|;
      assert tail[0] == rest[n];
      FirstPieceNonEmpty(tail);
    }
  }

  lemma ConsInterior(p: String, pieces: seq<String>)
    requires forall i :: 0 < i < |pieces| - 1 ==> pieces[i] != []
    requires |pieces| >= 2 ==> pieces[0] != []
    ensures forall i :: 0 < i < |[p] + pieces| - 1 ==> ([p] + pieces)[i] != []
  {
    forall i | 0 < i < |[p] + pieces| - 1
      ensures ([p] + pieces)[i] != []
    {
      assert ([p] + pieces)[i] == pieces[i - 1];
    }
  }

  /** The runs are maximal: since a run swallows every separator that
      follows it, no empty piece sits between two runs. Only the first and
      the last piece can be empty (a leading or a trailing run). */
  lemma {:induction false} SplitInteriorNonEmpty(s: String)
    ensures forall i :: 0 < i < |Split(s)| - 1 ==> Split(s)[i] != []
    decreases |s|
  {
    var k := FirstSeparator(s);
    if k < |s| {
      var tail := s[k..][SeparatorRun(s[k..])..];
      SplitStep(s);
      SplitInteriorNonEmpty(tail);
      TailFirstPiece(s);
      ConsInterior(s[..k], Split(tail));
    }
  }

  lemma PrefixIsInfix(s: String, k: nat)
    requires k <= |s|
    ensures IsInfix(s[..k], s)
  {
    assert s[0..k] == s[..k];
  }

  lemma SuffixInfix(p: String, s: String, lo: nat)
    requires lo <= |s| && IsInfix(p, s[lo..])
    ensures IsInfix(p, s)
  {
    assert s[lo..|s|] == s[lo..];
    InfixOfSlice(p, s, lo, |s|);
  }

  lemma {:induction false} SplitPiecesAreInfixes(s: String)
    ensures forall p :: p in Split(s) ==> IsInfix(p, s)
    decreases |s|
  {
    var k := FirstSeparator(s);
    if k == |s| {
      PrefixIsInfix(s, |s|);
      assert s[..|s|] == s;
    } else {
      var rest := s[k..];
      var n := SeparatorRun(rest);
      var tail := rest[n..];
      assert Split(s) == [s[..k]] + Split(tail);
      SplitPiecesAreInfixes(tail);
      assert tail == s[k + n..];
      PrefixIsInfix(s, k);
      forall p | p in Split(tail)
        ensures IsInfix(p, s)
      {
        SuffixInfix(p, s, k + n);
      }
    }
  }

  /** `array_filter(array_map('trim', $pieces))`: trimmed pieces, empty ones dropped. */
  function TrimmedNonEmpty(pieces: seq<String>): (r: seq<String>)
    ensures forall t :: t in r <==> t != [] && exists k :: 0 <= k < |pieces| && Trim(pieces[k]) == t
  {
    if pieces == [] then []
    else
      var init := TrimmedNonEmpty(pieces[..|pieces| - 1]);
      var t := Trim(pieces[|pieces| - 1]);
      assert forall k :: 0 <= k < |pieces| - 1 ==> pieces[..|pieces| - 1][k] == pieces[k];
      if t != [] then init + [t] else init
  }

  /** `parseIdentifiers($text)`. */
  function ParseIdentifiers(text: String): (tokens: seq<String>)
    ensures NoDups(tokens)
  {
    Unique(TrimmedNonEmpty(Split(text)))
  }

  lemma NoSeparatorInTrim(p: String)
    requires NoSeparator(p)
    ensures NoSeparator(Trim(p))
  {
    var i, j := TrimStart(p), TrimEnd(p);
    assert forall k :: 0 <= k < j - i ==> Trim(p)[k] == p[i + k];
  }

  /** Every token is non-empty, trimmed, free of separators, occurs in the
      input text, and no token is repeated. */
  lemma ParsedTokensWellFormed(text: String)
    ensures var tokens := ParseIdentifiers(text);
            && NoDups(tokens)
            && forall t :: t in tokens ==>
                 t != [] && IsTrimmed(t) && NoSeparator(t) && IsInfix(t, text)
  {
    var pieces := Split(text);
    SplitPiecesAreInfixes(text);
    forall t | t in ParseIdentifiers(text)
      ensures t != [] && IsTrimmed(t) && NoSeparator(t) && IsInfix(t, text)
    {
      assert t in TrimmedNonEmpty(pieces);
      var k :| 0 <= k < |pieces| && Trim(pieces[k]) == t;
      assert pieces[k] in pieces;
      NoSeparatorInTrim(pieces[k]);
      TrimIsInfix(pieces[k]);
      InfixTransitive(t, pieces[k], text);
    }
  }

  /** Conversely, every piece of the text that is not blank after trimming
      is one of the tokens. */
  lemma ParsedTokensComplete(text: String)
    ensures forall p :: p in Split(text) && Trim(p) != [] ==> Trim(p) in ParseIdentifiers(text)
  {
    var pieces := Split(text);
    forall p | p in pieces && Trim(p) != []
      ensures Trim(p) in ParseIdentifiers(text)
    {
      var k :| 0 <= k < |pieces| && pieces[k] == p;
      assert Trim(pieces[k]) in TrimmedNonEmpty(pieces);
    }
  }

  lemma {:induction false} SplitOfSeparatorsIsBlank(s: String)
    requires forall k :: 0 <= k < |s| ==> IsSeparator(s[k])
    ensures forall p :: p in Split(s) ==> p == []
    decreases |s|
  {
    if s != [] {
      assert FirstSeparator(s) == 0;
      var n := SeparatorRun(s);
      var tail := s[n..];
      assert s[0..][n..] == tail;
      assert Split(s) == [[]] + Split(tail);
      SplitOfSeparatorsIsBlank(tail);
    }
  }

  lemma {:induction false} BlankPiecesVanish(pieces: seq<String>)
    requires forall k :: 0 <= k < |pieces| ==> Trim(pieces[k]) == []
    ensures TrimmedNonEmpty(pieces) == []
  {
    if pieces != [] {
      BlankPiecesVanish(pieces[..|pieces| - 1]);
    }
  }

  /** Text made of separators only (the empty text included) yields no
      token at all. */
  lemma BlankTextHasNoTokens(text: String)
    requires forall k :: 0 <= k < |text| ==> IsSeparator(text[k])
    ensures ParseIdentifiers(text) == []
  {
    var pieces := Split(text);
    SplitOfSeparatorsIsBlank(text);
    assert forall k :: 0 <= k < |pieces| ==> pieces[k] in pieces;
    BlankPiecesVanish(pieces);
  }

  /** The first separator is the one that only non-separators precede. */
  lemma FirstSeparatorAt(s: String, k: nat)
    requires k < |s| && IsSeparator(s[k]) && NoSeparator(s[..k])
    ensures FirstSeparator(s) == k
  {
    assert forall i :: 0 <= i < k ==> s[..k][i] == s[i];
  }

  lemma MixedTextFirstPiece()
    ensures FirstSeparator("abc123, 42") == 6
  {
    var s := "abc123, 42";
    assert s[..6] == "abc123";
    assert NoSeparator("abc123");
    FirstSeparatorAt(s, 6);
  }

  lemma MixedTextSeparators()
    ensures SeparatorRun(", 42") == 2
  {
  }

  lemma MixedTextLastPiece()
    ensures Split("42") == ["42"]
  {
    assert FirstSeparator("42") == 2;
  }

  lemma MixedTextSplit()
    ensures Split("abc123, 42") == ["abc123", "42"]
  {
    var text := "abc123, 42";
    MixedTextFirstPiece();
    MixedTextSeparators();
    MixedTextLastPiece();
    assert text[6..] == ", 42";
    assert ", 42"[2..] == "42";
    assert text[..6] == "abc123";
  }

  lemma MixedTextFirstToken()
    ensures TrimmedNonEmpty(["abc123"]) == ["abc123"]
  {
    TrimOfTrimmed("abc123");
    assert ["abc123"][..0] == [];
  }

  lemma MixedTextTrimmed()
    ensures TrimmedNonEmpty(["abc123", "42"]) == ["abc123", "42"]
  {
    MixedTextFirstToken();
    TrimOfTrimmed("42");
    assert ["abc123", "42"][..1] == ["abc123"];
  }

  lemma MixedTextDistinct()
    ensures Unique(["abc123", "42"]) == ["abc123", "42"]
  {
    assert NoDups(["abc123", "42"]);
    UniqueOfNoDups(["abc123", "42"]);
  }

  /** `abc123, 42` holds the two tokens `abc123` and `42`. */
  lemma MixedTextTokens()
    ensures ParseIdentifiers("abc123, 42") == ["abc123", "42"]
  {
    MixedTextSplit();
    MixedTextTrimmed();
    MixedTextDistinct();
  }
}
