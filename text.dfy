/** Normalisation of a typed answer: `lowercased()` followed by
    `trimmingCharacters(in: .whitespacesAndNewlines)`.
    Lowercasing is modelled on ASCII letters; the whitespace set is the
    one Foundation uses for `.whitespacesAndNewlines` (Unicode general
    categories Zs, Zl, Zp plus the line-feed to carriage-return controls,
    tab and NEL). */
module Text {

  predicate IsUpper(c: char) {
    'A' <= c <= 'Z'
  }

  /** No ASCII capital letter anywhere in s. */
  predicate NoUpper(s: string) {
    forall i | 0 <= i < |s| :: !IsUpper(s[i])
  }

  predicate IsWhitespace(c: char) {
    || c == ' ' || c == '\t' || c == '\n' || c == '\U{000B}' || c == '\U{000C}' || c == '\r'
    || c == '\U{0085}' || c == '\U{00A0}' || c == '\U{1680}'
    || ('\U{2000}' <= c <= '\U{200A}')
    || c == '\U{2028}' || c == '\U{2029}' || c == '\U{202F}' || c == '\U{205F}' || c == '\U{3000}'
  }

  function Lower(c: char): (r: char)
    ensures !IsUpper(r)
    ensures !IsUpper(c) ==> r == c
    ensures IsUpper(c) ==> 'a' <= r <= 'z' && r as int - c as int == 32
  {
    if IsUpper(c) then (c as int + 32) as char else c
  }

  /** `lowercased()`: every character is mapped through Lower, in place. */
  function Lowercased(s: string): (r: string)
    ensures |r| == |s|
    ensures forall i | 0 <= i < |s| :: r[i] == Lower(s[i])
    ensures NoUpper(r)
  {
    if s == [] then [] else [Lower(s[0])] + Lowercased(s[1..])
  }

  /** Number of whitespace characters s starts with. */
  function LeadingWhitespace(s: string): (n: nat)
    ensures n <= |s|
    ensures forall k | 0 <= k < n :: IsWhitespace(s[k])
    ensures n < |s| ==> !IsWhitespace(s[n])
  {
    if s != [] && IsWhitespace(s[0]) then 1 + LeadingWhitespace(s[1..]) else 0
  }

  /** Number of whitespace characters s ends with. */
  function TrailingWhitespace(s: string): (n: nat)
    ensures n <= |s|
    ensures forall k | |s| - n <= k < |s| :: IsWhitespace(s[k])
    ensures n < |s| ==> !IsWhitespace(s[|s| - n - 1])
  {
    if s != [] && IsWhitespace(s[|s| - 1]) then 1 + TrailingWhitespace(s[..|s| - 1]) else 0
  }

  /** r is s[i..j] and everything outside that slice is whitespace. */
  predicate SliceCutAtWhitespace(s: string, i: nat, j: nat, r: string)
    requires i <= j <= |s|
  {
    && r == s[i..j]
    && (forall k | 0 <= k < i :: IsWhitespace(s[k]))
    && (forall k | j <= k < |s| :: IsWhitespace(s[k]))
  }

  /** `trimmingCharacters(in: .whitespacesAndNewlines)`. */
  function Trim(s: string): string {
    var i := LeadingWhitespace(s);
    s[i..|s| - TrailingWhitespace(s[i..])]
  }

  /** Trim returns a contiguous slice of s, everything it cuts off on either
      side is whitespace, the slice neither starts nor ends with whitespace,
      and it adds no capital letter. */
  lemma TrimShape(s: string)
    ensures exists i, j | 0 <= i <= j <= |s| :: SliceCutAtWhitespace(s, i, j, Trim(s))
    ensures var r := Trim(s); r == [] || (!IsWhitespace(r[0]) && !IsWhitespace(r[|r| - 1]))
    ensures NoUpper(s) ==> NoUpper(Trim(s))
  {
    var i := LeadingWhitespace(s);
    var j := |s| - TrailingWhitespace(s[i..]);
    TrimIsSlice(s, i, j);
    if NoUpper(s) {
      SliceNoUpper(s, i, j);
    }
  }

  lemma TrimIsSlice(s: string, i: nat, j: nat)
    requires i == LeadingWhitespace(s) && j == |s| - TrailingWhitespace(s[i..])
    ensures i <= j <= |s| && SliceCutAtWhitespace(s, i, j, Trim(s))
  {
    assert i <= j <= |s|;
    assert Trim(s) == s[i..j];
    TrailingCut(s, i);
    assert forall k | 0 <= k < i :: IsWhitespace(s[k]);
  }

  lemma TrailingCut(s: string, i: nat)
    requires i <= |s|
    ensures forall k | |s| - TrailingWhitespace(s[i..]) <= k < |s| :: IsWhitespace(s[k])
  {
    var t := s[i..];
    forall k | |s| - TrailingWhitespace(t) <= k < |s| ensures IsWhitespace(s[k]) {
      assert s[k] == t[k - i];
    }
  }

  lemma SliceNoUpper(s: string, i: nat, j: nat)
    requires i <= j <= |s| && NoUpper(s)
    ensures NoUpper(s[i..j])
  {
    forall k | 0 <= k < j - i ensures !IsUpper(s[i..j][k]) {
      assert s[i..j][k] == s[i + k];
    }
  }

  /** The answer as addNewWord computes it from the text field. */
  function Normalise(s: string): string {
    Trim(Lowercased(s))
  }

  /** A normalised answer has no capital letter and neither starts nor ends
      with whitespace. */
  lemma NormaliseShape(s: string)
    ensures NoUpper(Normalise(s))
    ensures var r := Normalise(s); r == [] || (!IsWhitespace(r[0]) && !IsWhitespace(r[|r| - 1]))
  {
    TrimShape(Lowercased(s));
  }

  lemma {:induction false} LowercasedOfLower(s: string)
    requires NoUpper(s)
    ensures Lowercased(s) == s
  {
    if s != [] {
      assert NoUpper(s[1..]) by {
        forall i | 0 <= i < |s[1..]| ensures !IsUpper(s[1..][i]) {
          assert s[1..][i] == s[i + 1];
        }
      }
      LowercasedOfLower(s[1..]);
    }
  }

  lemma TrimOfTrimmed(s: string)
    requires s == [] || (!IsWhitespace(s[0]) && !IsWhitespace(s[|s| - 1]))
    ensures Trim(s) == s
  {
    assert LeadingWhitespace(s) == 0;
    assert s[0..] == s;
    assert TrailingWhitespace(s) == 0;
  }

  /** A string with no capital letter and no whitespace at either end is
      its own normal form. */
  lemma NormalFormFixed(s: string)
    requires NoUpper(s)
    requires s == [] || (!IsWhitespace(s[0]) && !IsWhitespace(s[|s| - 1]))
    ensures Normalise(s) == s
  {
    LowercasedOfLower(s);
    TrimOfTrimmed(s);
  }

  /** Normalising an answer that is already normalised changes nothing. */
  lemma NormaliseIdempotent(s: string)
    ensures Normalise(Normalise(s)) == Normalise(s)
  {
    var a := Normalise(s);
    NormaliseShape(s);
    NormalFormFixed(a);
  }

  /** `components(separatedBy: "\n")`: the pieces of s between line feeds,
      in order. There is always at least one piece, and no piece holds a
      line feed. */
  function Lines(s: string): (r: seq<string>)
    ensures |r| >= 1
    ensures forall i | 0 <= i < |r| :: '\n' !in r[i]
  {
    if s == [] then [""]
    else
      var rest := Lines(s[1..]);
      if s[0] == '\n' then [""] + rest
      else [[s[0]] + rest[0]] + rest[1..]
  }

  /** The pieces joined back with a line feed between neighbours. */
  function JoinLines(ls: seq<string>): string
    requires |ls| >= 1
  {
    if |ls| == 1 then ls[0] else ls[0] + "\n" + JoinLines(ls[1..])
  }

  /** Splitting at line feeds loses nothing: joining the pieces gives s back. */
  lemma {:induction false} LinesRoundTrip(s: string)
    ensures JoinLines(Lines(s)) == s
  {
    if s != [] {
      LinesRoundTrip(s[1..]);
      var rest := Lines(s[1..]);
      var r := Lines(s);
      if s[0] == '\n' {
        assert r[1..] == rest;
      } else {
        assert r[1..] == rest[1..];
        if |rest| > 1 {
          assert JoinLines(rest) == rest[0] + "\n" + JoinLines(rest[1..]);
          assert JoinLines(r) == ([s[0]] + rest[0]) + "\n" + JoinLines(rest[1..]);
        }
        assert JoinLines(r) == [s[0]] + JoinLines(rest);
      }
      assert s == [s[0]] + s[1..];
    }
  }

  /** Text without a line feed is a single piece. */
  lemma {:induction false} LinesOfOneLine(s: string)
    requires '\n' !in s
    ensures Lines(s) == [s]
  {
    if s != [] {
      assert '\n' !in s[1..] by {
        forall k | 0 <= k < |s[1..]| ensures s[1..][k] != '\n' {
          assert s[1..][k] == s[k + 1];
        }
      }
      LinesOfOneLine(s[1..]);
      assert s == [s[0]] + s[1..];
    }
  }

  /** Text ending in a line feed has an empty last piece after at least one
      other piece. */
  lemma {:induction false} LinesAfterFinalNewline(s: string)
    requires s != [] && s[|s| - 1] == '\n'
    ensures |Lines(s)| >= 2 && Lines(s)[|Lines(s)| - 1] == ""
  {
    if |s| == 1 {
      assert s[1..] == [];
    } else {
      assert s[1..][|s[1..]| - 1] == s[|s| - 1];
      LinesAfterFinalNewline(s[1..]);
    }
  }
}
