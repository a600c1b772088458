/** The comma-separated key/value scanner of the text segment. Each combinator is
    a parser in the style of `nom`: it either fails or returns the unconsumed rest
    of the input with what it matched. The separator is the literal ','. */
module TextCodec {
  import opened Wrappers

  /** A successful parse: the input not consumed, and the output. */
  datatype Parsed<T> = Parsed(rest: string, output: T)

  const Separator: char := ','

  predicate NoSeparator(s: string) {
    forall i :: 0 <= i < |s| ==> s[i] != Separator
  }

  /** Where no piece of a field can start: the end of the input, or a separator
      that is not doubled. */
  predicate AtFieldEnd(s: string) {
    s == [] || (s[0] == Separator && (|s| == 1 || s[1] != Separator))
  }

  /** The reference grammar of a field's raw text: a run of ordinary characters and
      doubled separators, in any order. */
  predicate Escaped(m: string)
    decreases |m|
  {
    if m == [] then true
    else if m[0] != Separator then Escaped(m[1..])
    else |m| >= 2 && m[1] == Separator && Escaped(m[2..])
  }

  /** A field as `unseparated_string` matches it: non-empty and escaped. */
  predicate IsField(m: string) {
    m != [] && Escaped(m)
  }

  /** The length of the longest separator-free prefix. */
  function SeparatorFreePrefix(s: string): (n: nat)
    ensures n <= |s| && NoSeparator(s[..n])
    ensures n == |s| || s[n] == Separator
  {
    if s == [] || s[0] == Separator then 0
    else
      var n := 1 + SeparatorFreePrefix(s[1..]);
      assert s[..n] == [s[0]] + s[1..][..n - 1];
      n
  }

  /** `not_separator`, i.e. `is_not(",")`: the longest non-empty separator-free prefix. */
  function NotSeparator(s: string): (r: Option<Parsed<string>>)
    ensures r.Some? <==> s != [] && s[0] != Separator
    ensures r.Some? ==>
      && r.value.output + r.value.rest == s
      && r.value.output != [] && NoSeparator(r.value.output)
      && (r.value.rest == [] || r.value.rest[0] == Separator)
  {
    var n := SeparatorFreePrefix(s);
    if n == 0 then None
    else
      assert s[..n] + s[n..] == s;
      Some(Parsed(s[n..], s[..n]))
  }

  /** `escaped_separator`, i.e. `tag(",,")`. */
  function EscapedSeparator(s: string): (r: Option<Parsed<string>>)
    ensures r.Some? <==> |s| >= 2 && s[0] == Separator && s[1] == Separator
    ensures r.Some? ==> r.value.output == [Separator, Separator] && r.value.output + r.value.rest == s
  {
    if |s| >= 2 && s[..2] == [Separator, Separator] then
      assert s[..2] + s[2..] == s;
      Some(Parsed(s[2..], s[..2]))
    else None
  }

  /** `alt((not_separator, escaped_separator))`: one piece of a field. */
  function Piece(s: string): (r: Option<Parsed<string>>)
    ensures r.None? <==> AtFieldEnd(s)
    ensures r.Some? ==> r.value.output != [] && r.value.output + r.value.rest == s
    ensures r.Some? ==> r.value.output == [Separator, Separator] || NoSeparator(r.value.output)
    ensures r.Some? && s[0] != Separator ==> r.value.rest == [] || r.value.rest[0] == Separator
  {
    match NotSeparator(s)
    case Some(p) => Some(p)
    case None => EscapedSeparator(s)
  }

  /** The repetition inside `many1`: take pieces while one applies; this returns
      what is left. */
  function PiecesRest(s: string): (rest: string)
    ensures |rest| <= |s| && rest == s[|s| - |rest|..]
    ensures AtFieldEnd(rest)
    decreases |s|
  {
    match Piece(s)
    case None =>
      s
    case Some(p) =>
      PiecesRest(p.rest)
  }

  /** Everything the repetition consumes is escaped text. */
  lemma {:induction false} PiecesRestEscaped(s: string)
    ensures Escaped(s[..|s| - |PiecesRest(s)|])
    decreases |s|
  {
    match Piece(s)
    case None =>
      assert PiecesRest(s) == s;
      assert s[..|s| - |PiecesRest(s)|] == [];
    case Some(p) =>
      var rest := PiecesRest(p.rest);
      PiecesRestEscaped(p.rest);
      PieceThenConsumed(s, p, |p.rest| - |rest|);
      assert PiecesRest(s) == rest;
      assert |s| - |PiecesRest(s)| == |p.output| + (|p.rest| - |rest|);
  }

  /** A piece followed by an escaped prefix of what it leaves is escaped text. */
  lemma PieceThenConsumed(s: string, p: Parsed<string>, k: nat)
    requires Piece(s) == Some(p) && k <= |p.rest|
    requires Escaped(p.rest[..k])
    ensures |p.output| + k <= |s| && Escaped(s[..|p.output| + k])
  {
    PrefixOfConcat(s, p.output, p.rest, k);
    PieceThenEscaped(p.output, p.rest[..k]);
  }

  lemma PrefixOfConcat(s: string, a: string, b: string, k: nat)
    requires s == a + b && k <= |b|
    ensures s[..|a| + k] == a + b[..k]
  {
  }

  /** `unseparated_string`, i.e. `recognize(many1(alt((not_separator,
      escaped_separator))))`: the raw text of one field, escapes still doubled. */
  function UnseparatedString(s: string): (r: Option<Parsed<string>>)
    ensures r.None? <==> AtFieldEnd(s)
    ensures r.Some? ==>
      && r.value.output + r.value.rest == s
      && IsField(r.value.output)
      && AtFieldEnd(r.value.rest)
  {
    if Piece(s).None? then None
    else
      var rest := PiecesRest(s);
      PiecesRestEscaped(s);
      assert s[..|s| - |rest|] + rest == s;
      Some(Parsed(rest, s[..|s| - |rest|]))
  }

  /** `kv_pair`, i.e. `separated_pair(unseparated_string, char(','),
      unseparated_string)`: a key field, one separator, a value field. */
  function KvPair(s: string): (r: Option<Parsed<(string, string)>>)
    ensures r.Some? ==>
      && s == r.value.output.0 + [Separator] + r.value.output.1 + r.value.rest
      && IsField(r.value.output.0) && IsField(r.value.output.1)
      && AtFieldEnd(r.value.rest)
  {
    match UnseparatedString(s)
    case None => None
    case Some(key) =>
      if key.rest != [] && key.rest[0] == Separator then
        match UnseparatedString(key.rest[1..])
        case None => None
        case Some(value) =>
          SeparatedShape(s, key.output, key.rest, value.output, value.rest);
          Some(Parsed(value.rest, (key.output, value.output)))
      else None
  }

  lemma SeparatedShape(s: string, key: string, afterKey: string, value: string, rest: string)
    requires s == key + afterKey && afterKey != [] && afterKey[0] == Separator
    requires afterKey[1..] == value + rest
    ensures s == key + [Separator] + value + rest
  {
    assert afterKey == [Separator] + afterKey[1..];
  }

  /** A piece followed by escaped text is escaped text. */
  lemma PieceThenEscaped(piece: string, m: string)
    requires piece == [Separator, Separator] || NoSeparator(piece)
    requires Escaped(m)
    ensures Escaped(piece + m)
  {
    if piece == [Separator, Separator] {
      assert (piece + m)[2..] == m;
    } else {
      NotSeparatorIsEscaped(piece, m);
    }
  }

  lemma {:induction false} NotSeparatorIsEscaped(c: string, m: string)
    requires NoSeparator(c) && Escaped(m)
    ensures Escaped(c + m)
    decreases |c|
  {
    if c != [] {
      assert (c + m)[1..] == c[1..] + m;
      NotSeparatorIsEscaped(c[1..], m);
    } else {
      assert c + m == m;
    }
  }
}

module TextLemmas {
  import opened Wrappers
  import opened TextCodec

  /** `m[i..j]` is a maximal run of separators in `m`. */
  predicate IsSeparatorRun(m: string, i: int, j: int) {
    && 0 <= i < j <= |m|
    && (forall k :: i <= k < j ==> m[k] == Separator)
    && (i == 0 || m[i - 1] != Separator)
    && (j == |m| || m[j] != Separator)
  }

  /** Every maximal run of separators has even length. */
  ghost predicate EvenSeparatorRuns(m: string) {
    forall i, j :: IsSeparatorRun(m, i, j) ==> (j - i) % 2 == 0
  }

  /** The number of separators `m` starts with. */
  function LeadingSeparators(m: string): (n: nat)
    ensures n <= |m| && (forall k :: 0 <= k < n ==> m[k] == Separator)
    ensures n == |m| || m[n] != Separator
  {
    if m != [] && m[0] == Separator then 1 + LeadingSeparators(m[1..]) else 0
  }

  /** The escaping grammar is exactly "every maximal run of separators is even". */
  lemma {:induction false} EscapedIffEvenRuns(m: string)
    ensures Escaped(m) <==> EvenSeparatorRuns(m)
    decreases |m|
  {
    if m == [] {
    } else if m[0] != Separator {
      EscapedIffEvenRuns(m[1..]);
      EvenRunsAfterPlain(m);
    } else {
      var n := LeadingSeparators(m);
      assert IsSeparatorRun(m, 0, n);
      if n >= 2 {
        EscapedIffEvenRuns(m[2..]);
        EvenRunsAfterDoubled(m);
      }
    }
  }

  /** Dropping an ordinary first character keeps the separator runs. */
  lemma EvenRunsAfterPlain(m: string)
    requires m != [] && m[0] != Separator
    ensures EvenSeparatorRuns(m) <==> EvenSeparatorRuns(m[1..])
  {
    var t := m[1..];
    forall i, j | IsSeparatorRun(m, i, j) ensures IsSeparatorRun(t, i - 1, j - 1) {
    }
    forall i, j | IsSeparatorRun(t, i, j) ensures IsSeparatorRun(m, i + 1, j + 1) {
    }
  }

  /** Dropping a leading doubled separator shortens the first run by two and keeps
      the others. */
  lemma EvenRunsAfterDoubled(m: string)
    requires |m| >= 2 && m[0] == Separator && m[1] == Separator
    ensures EvenSeparatorRuns(m) <==> EvenSeparatorRuns(m[2..])
  {
    var t := m[2..];
    var n := LeadingSeparators(m);
    assert IsSeparatorRun(m, 0, n);
    forall i, j | IsSeparatorRun(m, i, j) && j - i != 2 ensures IsSeparatorRun(t, if i == 0 then 0 else i - 2, j - 2) {
    }
    forall i, j | IsSeparatorRun(t, i, j) ensures IsSeparatorRun(m, if i == 0 then 0 else i + 2, j + 2) {
    }
  }

  /** Escaped text that is not separator-free stops being separator-free where a
      doubled separator starts, and what follows the separator-free part is still
      escaped. */
  lemma {:induction false} EscapedAfterPlainPrefix(m: string, k: nat)
    requires Escaped(m) && k <= |m| && NoSeparator(m[..k])
    ensures Escaped(m[k..])
    decreases k
  {
    if k > 0 {
      assert m[0] == m[..k][0];
      assert m[1..][..k - 1] == m[..k][1..];
      EscapedAfterPlainPrefix(m[1..], k - 1);
      assert m[1..][k - 1..] == m[k..];
    }
  }

  lemma {:induction false} SeparatorFreePrefixAtMost(s: string, j: nat)
    requires j < |s| && s[j] == Separator
    ensures SeparatorFreePrefix(s) <= j
  {
    if s[0] != Separator {
      SeparatorFreePrefixAtMost(s[1..], j - 1);
    }
  }


  /** The repetition takes one piece and goes on from what that piece leaves. */
  lemma PiecesRestStep(s: string)
    requires Piece(s).Some?
    ensures PiecesRest(s) == PiecesRest(Piece(s).value.rest)
  {
  }

  /** `alt` takes the first alternative that applies: `not_separator`'s maximal run
      on an ordinary first character, `escaped_separator` on a separator. */
  lemma PieceTakesFirstAlternative(s: string)
    ensures s != [] && s[0] != Separator ==> Piece(s) == NotSeparator(s)
    ensures s != [] && s[0] == Separator ==> Piece(s) == EscapedSeparator(s)
  {
  }

  /** On an ordinary first character the piece is exactly the maximal
      separator-free run: no other split of the input is returned. */
  lemma PieceIsMaximalRun(s: string, out: string, rest: string)
    requires s != [] && s[0] != Separator
    ensures Piece(s) == Some(Parsed(rest, out)) <==>
      && s == out + rest && out != [] && NoSeparator(out)
      && (rest == [] || rest[0] == Separator)
  {
    if s == out + rest && out != [] && NoSeparator(out) && (rest == [] || rest[0] == Separator) {
      var n := SeparatorFreePrefix(s);
      if rest != [] {
        assert s[|out|] == Separator;
        SeparatorFreePrefixAtMost(s, |out|);
      }
      assert s[..n] == out && s[n..] == rest;
    }
  }

  /** On escaped text that starts with an ordinary character and is followed by a
      field end, the first piece is a prefix of the escaped text, and escaped text
      remains. */
  lemma PlainPieceOfEscaped(m: string, rest: string)
    requires Escaped(m) && AtFieldEnd(rest) && m != [] && m[0] != Separator
    ensures Piece(m + rest).Some?
    ensures var p := Piece(m + rest).value;
      && |p.output| <= |m| && p.rest == m[|p.output|..] + rest
      && Escaped(m[|p.output|..])
  {
    var s := m + rest;
    assert s[0] == m[0];
    var p := NotSeparator(s).value;
    if rest != [] {
      assert s[|m|] == Separator;
      SeparatorFreePrefixAtMost(s, |m|);
    }
    PlainPrefixSplit(s, m, rest, p.output, p.rest);
  }

  /** A separator-free prefix no longer than `m` splits `m + rest` inside `m`. */
  lemma PlainPrefixSplit(s: string, m: string, rest: string, out: string, after: string)
    requires s == m + rest && out + after == s && |out| <= |m|
    requires Escaped(m) && NoSeparator(out)
    ensures after == m[|out|..] + rest && Escaped(m[|out|..])
  {
    PrefixSplit(s, m, rest, out, after);
    EscapedAfterPlainPrefix(m, |out|);
  }

  /** A split of `m + rest` no later than the end of `m` splits `m`. */
  lemma PrefixSplit(s: string, m: string, rest: string, out: string, after: string)
    requires s == m + rest && out + after == s && |out| <= |m|
    ensures out == m[..|out|] && after == m[|out|..] + rest
  {
    var k := |out|;
    assert out == s[..k] && s[..k] == m[..k];
    assert after == s[k..];
    assert s[k..] == m[k..] + rest;
  }

  /** On escaped text that starts with a doubled separator, the first piece is that
      doubled separator. */
  lemma DoubledPieceOfEscaped(m: string, rest: string)
    requires Escaped(m) && m != [] && m[0] == Separator
    ensures Piece(m + rest) == Some(Parsed(m[2..] + rest, [Separator, Separator]))
  {
    var s := m + rest;
    assert s[0] == Separator && s[1] == Separator;
    assert s[2..] == m[2..] + rest;
  }

  /** On escaped text followed by a field end, the repetition of pieces consumes
      exactly the escaped text. */
  lemma {:induction false} PiecesRestOfEscaped(m: string, rest: string)
    requires Escaped(m) && AtFieldEnd(rest)
    ensures PiecesRest(m + rest) == rest
    decreases |m|
  {
    var s := m + rest;
    if m == [] {
      assert s == rest;
    } else if m[0] != Separator {
      PlainPieceOfEscaped(m, rest);
      var k := |Piece(s).value.output|;
      PiecesRestStep(s);
      PiecesRestOfEscaped(m[k..], rest);
    } else {
      DoubledPieceOfEscaped(m, rest);
      PiecesRestStep(s);
      PiecesRestOfEscaped(m[2..], rest);
    }
  }

  /** `unseparated_string` is characterised by the grammar: it returns
      `(rest, m)` exactly when the input is `m + rest`, `m` is a non-empty escaped
      field and `rest` is where no further piece starts. */
  lemma UnseparatedStringExactly(s: string, m: string, rest: string)
    ensures UnseparatedString(s) == Some(Parsed(rest, m)) <==>
      s == m + rest && IsField(m) && AtFieldEnd(rest)
  {
    if s == m + rest && IsField(m) && AtFieldEnd(rest) {
      PiecesRestOfEscaped(m, rest);
      assert !AtFieldEnd(s) by {
        if m[0] == Separator { assert m[1] == Separator && s[1] == Separator; }
      }
      assert s[..|s| - |rest|] == m;
    }
  }

  lemma UnseparatedStringOfField(s: string, m: string, rest: string)
    requires s == m + rest && IsField(m) && AtFieldEnd(rest)
    ensures UnseparatedString(s) == Some(Parsed(rest, m))
  {
    UnseparatedStringExactly(s, m, rest);
  }

  /** Every maximal run of separators in what `unseparated_string` matches has even
      length: the raw field holds doubled separators only. */
  lemma UnseparatedStringEvenRuns(s: string)
    requires UnseparatedString(s).Some?
    ensures EvenSeparatorRuns(UnseparatedString(s).value.output)
  {
    EscapedIffEvenRuns(UnseparatedString(s).value.output);
  }

  /** `kv_pair` is characterised by the grammar: it returns `(rest, (k, v))`
      exactly when the input is `k + "," + v + rest` with both fields non-empty and
      escaped, `v` not starting with a separator (the key takes every separator
      pair it can, greedily from the left) and `rest` a field end. */
  lemma KvPairExactly(s: string, k: string, v: string, rest: string)
    ensures KvPair(s) == Some(Parsed(rest, (k, v))) <==>
      && s == k + [Separator] + v + rest
      && IsField(k) && IsField(v) && v[0] != Separator
      && AtFieldEnd(rest)
  {
    if KvPair(s) == Some(Parsed(rest, (k, v))) {
      KvPairSound(s);
    }
    if s == k + [Separator] + v + rest && IsField(k) && IsField(v) && v[0] != Separator && AtFieldEnd(rest) {
      KvPairComplete(s, k, v, rest);
    }
  }

  lemma KvPairSound(s: string)
    requires KvPair(s).Some?
    ensures var v := KvPair(s).value.output.1; v[0] != Separator
  {
    var key := UnseparatedString(s).value;
    var value := UnseparatedString(key.rest[1..]).value;
    assert key.rest[1..] == value.output + value.rest;
  }

  /** `kv_pair` succeeds once both `unseparated_string` calls and the separator
      between them do. */
  lemma KvPairFromParts(s: string, key: Parsed<string>, value: Parsed<string>)
    requires UnseparatedString(s) == Some(key)
    requires key.rest != [] && key.rest[0] == Separator
    requires UnseparatedString(key.rest[1..]) == Some(value)
    ensures KvPair(s) == Some(Parsed(value.rest, (key.output, value.output)))
  {
  }

  lemma KvPairComplete(s: string, k: string, v: string, rest: string)
    requires s == k + [Separator] + v + rest
    requires IsField(k) && IsField(v) && v[0] != Separator && AtFieldEnd(rest)
    ensures KvPair(s) == Some(Parsed(rest, (k, v)))
  {
    var afterKey := [Separator] + v + rest;
    assert s == k + afterKey;
    assert afterKey[0] == Separator && afterKey[1] == v[0];
    assert afterKey[1..] == v + rest;
    KvPairOfFields(s, k, afterKey, v, rest);
  }

  lemma KvPairOfFields(s: string, k: string, afterKey: string, v: string, rest: string)
    requires s == k + afterKey && afterKey != [] && afterKey[0] == Separator
    requires afterKey[1..] == v + rest
    requires IsField(k) && IsField(v) && AtFieldEnd(afterKey) && AtFieldEnd(rest)
    ensures KvPair(s) == Some(Parsed(rest, (k, v)))
  {
    UnseparatedStringOfField(s, k, afterKey);
    UnseparatedStringOfField(afterKey[1..], v, rest);
    KvPairFromParts(s, Parsed(afterKey, k), Parsed(rest, v));
  }
}

/** The scanner's behaviour on the inputs of its unit tests, derived from the
    characterisations in `TextLemmas`. */
module TextExamples {
  import opened Wrappers
  import opened TextCodec
  import opened TextLemmas

  lemma KvPairBasic()
    ensures KvPair("ab,cd") == Some(Parsed("", ("ab", "cd")))
  {
    assert "ab,cd" == "ab" + [Separator] + "cd" + "";
    KvPairComplete("ab,cd", "ab", "cd", "");
  }

  lemma KvPairEscapedMiddle()
    ensures KvPair("a,,b,cd") == Some(Parsed("", ("a,,b", "cd")))
  {
    assert "a,,b,cd" == "a,,b" + [Separator] + "cd" + "";
    KvPairComplete("a,,b,cd", "a,,b", "cd", "");
  }

  lemma KvPairEscapedEnd()
    ensures KvPair("ab,,,cd") == Some(Parsed("", ("ab,,", "cd")))
  {
    assert "ab,,,cd" == "ab,," + [Separator] + "cd" + "";
    KvPairComplete("ab,,,cd", "ab,,", "cd", "");
  }

  lemma KvPairEscapedOverflow()
    ensures KvPair("ab,cd,e") == Some(Parsed(",e", ("ab", "cd")))
  {
    assert "ab,cd,e" == "ab" + [Separator] + "cd" + ",e";
    KvPairComplete("ab,cd,e", "ab", "cd", ",e");
  }

  lemma UnseparatedStringEasy()
    ensures UnseparatedString("ab") == Some(Parsed("", "ab"))
  {
    UnseparatedStringOfField("ab", "ab", "");
  }

  lemma UnseparatedStringEscapedStart()
    ensures UnseparatedString(",,ab") == Some(Parsed("", ",,ab"))
  {
    UnseparatedStringOfField(",,ab", ",,ab", "");
  }

  lemma UnseparatedStringEscapedMiddle()
    ensures UnseparatedString("a,,b") == Some(Parsed("", "a,,b"))
  {
    UnseparatedStringOfField("a,,b", "a,,b", "");
  }

  lemma UnseparatedStringEscapedEnd()
    ensures UnseparatedString("ab,,") == Some(Parsed("", "ab,,"))
  {
    UnseparatedStringOfField("ab,,", "ab,,", "");
  }

  lemma UnseparatedStringEscapedOnly()
    ensures UnseparatedString(",,") == Some(Parsed("", ",,"))
  {
    UnseparatedStringOfField(",,", ",,", "");
  }

  lemma UnseparatedStringEscapedMultiple()
    ensures UnseparatedString("a,,,,b") == Some(Parsed("", "a,,,,b"))
  {
    UnseparatedStringOfField("a,,,,b", "a,,,,b", "");
  }

  lemma UnseparatedStringUnescaped()
    ensures UnseparatedString("a,b") == Some(Parsed(",b", "a"))
  {
    assert "a,b" == "a" + ",b";
    UnseparatedStringOfField("a,b", "a", ",b");
  }

  lemma UnseparatedStringEscapedUnescapedOne()
    ensures UnseparatedString("a,,,b") == Some(Parsed(",b", "a,,"))
  {
    assert "a,,,b" == "a,," + ",b";
    UnseparatedStringOfField("a,,,b", "a,,", ",b");
  }

  lemma NotSeparatorExamples()
    ensures NotSeparator("a") == Some(Parsed("", "a"))
    ensures NotSeparator("ab") == Some(Parsed("", "ab"))
    ensures NotSeparator("ab,") == Some(Parsed(",", "ab"))
    ensures NotSeparator("ab,cd") == Some(Parsed(",cd", "ab"))
  {
    assert SeparatorFreePrefix("a") == 1;
    assert "a"[..1] == "a" && "a"[1..] == "";
    assert SeparatorFreePrefix("ab") == 2;
    assert "ab"[..2] == "ab" && "ab"[2..] == "";
    assert "ab," == "ab" + ",";
    assert "ab,cd" == "ab" + ",cd";
  }

  lemma EscapedSeparatorSingle()
    ensures EscapedSeparator(",,") == Some(Parsed("", ",,"))
  {
  }
}
