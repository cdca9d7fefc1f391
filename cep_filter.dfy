/**
 * The postal-code (CEP) input filter of the lookup screen: every keystroke
 * string is reduced to its ASCII digits, in order, and cut to the first
 * eight of them (a CEP has eight digits).
 */
module CepFilter {

  /** Number of digits in a Brazilian postal code. */
  const CepLength: nat := 8

  predicate IsDigit(c: char) {
    '0' <= c <= '9'
  }

  predicate AllDigits(s: string) {
    forall i :: 0 <= i < |s| ==> IsDigit(s[i])
  }

  /** A value the input field can hold: only digits, at most eight of them. */
  predicate IsCep(s: string) {
    AllDigits(s) && |s| <= CepLength
  }

  /**
   * `r` occurs in `s` with its characters in the same order, possibly with
   * other characters between them (matched greedily from the left).
   */
  predicate IsSubsequence(r: string, s: string)
    decreases |s|
  {
    if r == [] then true
    else if s == [] then false
    else if r[0] == s[0] then IsSubsequence(r[1..], s[1..])
    else IsSubsequence(r, s[1..])
  }

  /** The global replace of every character outside `0-9` by the empty string. */
  function StripNonDigits(s: string): (r: string)
    ensures AllDigits(r)
    ensures |r| <= |s|
  {
    if s == [] then []
    else if IsDigit(s[0]) then [s[0]] + StripNonDigits(s[1..])
    else StripNonDigits(s[1..])
  }

  /**
   * The text the input field keeps for a raw keystroke string: its digits,
   * cut to the first eight.
   */
  function FormatCep(text: string): (r: string)
    ensures IsCep(r)
    ensures r <= StripNonDigits(text)
    ensures |r| < CepLength ==> r == StripNonDigits(text)
  {
    var digits := StripNonDigits(text);
    if |digits| <= CepLength then digits else digits[..CepLength]
  }

  /** Filtering distributes over concatenation: each character is kept or dropped on its own. */
  lemma {:induction false} StripConcat(a: string, b: string)
    ensures StripNonDigits(a + b) == StripNonDigits(a) + StripNonDigits(b)
  {
    if a == [] {
      assert a + b == b;
    } else {
      assert (a + b)[0] == a[0] && (a + b)[1..] == a[1..] + b;
      StripConcat(a[1..], b);
      if IsDigit(a[0]) {
        assert StripNonDigits(a + b)
            == [a[0]] + (StripNonDigits(a[1..]) + StripNonDigits(b))
            == ([a[0]] + StripNonDigits(a[1..])) + StripNonDigits(b);
      }
    }
  }

  /** A string is left unchanged by the filter exactly when it holds only digits. */
  lemma {:induction false} StripFixesExactlyDigits(s: string)
    ensures StripNonDigits(s) == s <==> AllDigits(s)
  {
    if s != [] {
      StripFixesExactlyDigits(s[1..]);
      if !IsDigit(s[0]) {
        assert |StripNonDigits(s)| <= |s[1..]| < |s|;
      }
    }
  }

  /** Every digit of the input is kept, as many times as it occurs; nothing else is. */
  lemma {:induction false} StripCounts(s: string, c: char)
    ensures multiset(StripNonDigits(s))[c] == if IsDigit(c) then multiset(s)[c] else 0
  {
    if s == [] {
    } else {
      StripCounts(s[1..], c);
      assert s == [s[0]] + s[1..];
      assert multiset(s) == multiset([s[0]]) + multiset(s[1..]);
      if IsDigit(s[0]) {
        assert multiset(StripNonDigits(s)) == multiset([s[0]]) + multiset(StripNonDigits(s[1..]));
      }
      if !IsDigit(c) {
        assert c !in StripNonDigits(s);
      }
    }
  }

  /** The filter keeps the digits in their original order. */
  lemma {:induction false} StripIsSubsequence(s: string)
    ensures IsSubsequence(StripNonDigits(s), s)
  {
    if s != [] {
      StripIsSubsequence(s[1..]);
      if IsDigit(s[0]) {
        assert StripNonDigits(s)[1..] == StripNonDigits(s[1..]);
      }
    }
  }

  /** Any prefix of a subsequence is a subsequence. */
  lemma {:induction false} PrefixOfSubsequence(r: string, s: string, n: nat)
    requires IsSubsequence(r, s)
    requires n <= |r|
    ensures IsSubsequence(r[..n], s)
    decreases |s|
  {
    if n > 0 {
      if r[0] == s[0] {
        PrefixOfSubsequence(r[1..], s[1..], n - 1);
        assert r[..n][1..] == r[1..][..n - 1];
      } else {
        PrefixOfSubsequence(r, s[1..], n);
      }
    }
  }

  /** The stored CEP is made of characters of the keystroke string, in their original order. */
  lemma FormatIsSubsequence(text: string)
    ensures IsSubsequence(FormatCep(text), text)
  {
    StripIsSubsequence(text);
    PrefixOfSubsequence(StripNonDigits(text), text, |FormatCep(text)|);
  }

  /** A string is a fixed point of the input filter exactly when it is a well-formed CEP input. */
  lemma FormatFixesExactlyCeps(s: string)
    ensures FormatCep(s) == s <==> IsCep(s)
  {
    StripFixesExactlyDigits(s);
  }

  /** Filtering an already filtered value changes nothing. */
  lemma FormatIdempotent(text: string)
    ensures FormatCep(FormatCep(text)) == FormatCep(text)
  {
    FormatFixesExactlyCeps(FormatCep(text));
  }

  /**
   * Typing one more character after a stored CEP appends it when it is a
   * digit and there is room for it, and otherwise leaves the value as it was.
   */
  lemma TypeOneMore(cep: string, c: char)
    requires IsCep(cep)
    ensures FormatCep(cep + [c]) ==
      if IsDigit(c) && |cep| < CepLength then cep + [c] else cep
  {
    StripConcat(cep, [c]);
    StripFixesExactlyDigits(cep);
    assert StripNonDigits([c]) == if IsDigit(c) then [c] else [];
    if IsDigit(c) && |cep| == CepLength {
      assert (cep + [c])[..CepLength] == cep;
    }
  }

  /** A formatted postal code typed with its hyphen is reduced to its eight digits. */
  lemma FormatHyphenatedExample()
    ensures FormatCep("01001-000") == "01001000"
  {
    assert "01001-000" == "01001" + "-000";
    StripConcat("01001", "-000");
    StripFixesExactlyDigits("01001");
    StripFixesExactlyDigits("000");
    assert "-000"[1..] == "000";
    assert StripNonDigits("01001-000") == "01001" + "000" == "01001000";
  }
}
