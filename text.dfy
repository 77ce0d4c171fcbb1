/**
 * The pieces of Swift's `String` library that the game's logic relies on,
 * modelled on `seq<char>` with ASCII semantics: `lowercased()`,
 * `trimmingCharacters(in: .whitespacesAndNewlines)`,
 * `components(separatedBy:)`, `firstIndex(of:)` and `remove(at:)`.
 */
module Text {
  import opened Wrappers

  /** The ASCII members of `.whitespacesAndNewlines`. */
  predicate IsSpace(c: char) {
    c == ' ' || c == '\t' || c == '\n' || c == '\r' || c == '\U{B}' || c == '\U{C}'
  }

  predicate IsUpper(c: char) {
    'A' <= c <= 'Z'
  }

  /** ASCII lowercasing of one character. */
  function LowerChar(c: char): (r: char)
    ensures !IsUpper(r)
    ensures IsSpace(r) <==> IsSpace(c)
    ensures IsUpper(c) ==> 'a' <= r <= 'z' && r as int - c as int == 32
    ensures !IsUpper(c) ==> r == c
  {
    if IsUpper(c) then (c as int + 32) as char else c
  }

  /** `s.lowercased()`, ASCII only. */
  function Lowercased(s: string): (r: string)
    ensures |r| == |s|
    ensures forall i :: 0 <= i < |s| ==> r[i] == LowerChar(s[i])
    ensures forall i :: 0 <= i < |r| ==> !IsUpper(r[i])
    ensures forall i :: 0 <= i < |r| ==> (IsSpace(r[i]) <==> IsSpace(s[i]))
    ensures (forall i :: 0 <= i < |s| ==> !IsUpper(s[i])) ==> r == s
  {
    seq(|s|, i requires 0 <= i < |s| => LowerChar(s[i]))
  }

  /** The number of whitespace characters at the front of `s`. */
  function LeadingSpaces(s: string): (k: nat)
    ensures k <= |s|
    ensures forall i :: 0 <= i < k ==> IsSpace(s[i])
    ensures k < |s| ==> !IsSpace(s[k])
  {
    if s != [] && IsSpace(s[0]) then 1 + LeadingSpaces(s[1..]) else 0
  }

  /** The number of whitespace characters at the back of `s`. */
  function TrailingSpaces(s: string): (k: nat)
    ensures k <= |s|
    ensures forall i :: |s| - k <= i < |s| ==> IsSpace(s[i])
    ensures k < |s| ==> !IsSpace(s[|s| - 1 - k])
  {
    if s != [] && IsSpace(s[|s| - 1]) then 1 + TrailingSpaces(s[..|s| - 1]) else 0
  }

  /**
   * `s.trimmingCharacters(in: .whitespacesAndNewlines)`: the middle of `s`
   * that neither starts nor ends with whitespace, everything cut off being
   * whitespace.
   */
  function Trimmed(s: string): (r: string)
    ensures r == [] || (!IsSpace(r[0]) && !IsSpace(r[|r| - 1]))
    ensures LeadingSpaces(s) + |r| <= |s|
    ensures r == s[LeadingSpaces(s)..LeadingSpaces(s) + |r|]
    ensures forall i :: LeadingSpaces(s) + |r| <= i < |s| ==> IsSpace(s[i])
    ensures (s == [] || (!IsSpace(s[0]) && !IsSpace(s[|s| - 1]))) ==> r == s
  {
    DropTrailingSpaces(s[LeadingSpaces(s)..])
  }

  /** `t` without its trailing whitespace. */
  function DropTrailingSpaces(t: string): (r: string)
    ensures |r| <= |t| && r == t[..|r|]
    ensures forall i :: |r| <= i < |t| ==> IsSpace(t[i])
    ensures r != [] ==> !IsSpace(r[|r| - 1])
  {
    t[..|t| - TrailingSpaces(t)]
  }

  /**
   * The normalisation `addNewWord` applies to the text field:
   * lowercase first, then trim.
   */
  function Normalize(s: string): (r: string)
    ensures |r| <= |s|
    ensures r == [] || (!IsSpace(r[0]) && !IsSpace(r[|r| - 1]))
    ensures forall i :: 0 <= i < |r| ==> !IsUpper(r[i])
    ensures LeadingSpaces(s) + |r| <= |s|
    ensures r == Lowercased(s)[LeadingSpaces(s)..LeadingSpaces(s) + |r|]
  {
    LeadingSpacesLowercased(s);
    Trimmed(Lowercased(s))
  }

  /** What `Normalize` cuts off the entry, on either side, is whitespace. */
  lemma NormalizeCutsOnlyWhitespace(s: string)
    ensures forall i :: 0 <= i < LeadingSpaces(s) ==> IsSpace(s[i])
    ensures forall i :: LeadingSpaces(s) + |Normalize(s)| <= i < |s| ==> IsSpace(s[i])
  {
    var l := Lowercased(s);
    LeadingSpacesLowercased(s);
    assert Normalize(s) == Trimmed(l);
    forall i | LeadingSpaces(s) + |Normalize(s)| <= i < |s|
      ensures IsSpace(s[i])
    {
      assert IsSpace(l[i]);
    }
  }

  /** Lowercasing keeps whitespace in place, so the leading whitespace run is as long as before. */
  lemma {:induction false} LeadingSpacesLowercased(s: string)
    ensures LeadingSpaces(Lowercased(s)) == LeadingSpaces(s)
  {
    if s != [] {
      assert Lowercased(s)[1..] == Lowercased(s[1..]);
      LeadingSpacesLowercased(s[1..]);
    }
  }

  /** The form `Normalize` produces: no upper-case letter, no whitespace at either end. */
  predicate IsNormalized(s: string) {
    && (s == [] || (!IsSpace(s[0]) && !IsSpace(s[|s| - 1])))
    && forall i :: 0 <= i < |s| ==> !IsUpper(s[i])
  }

  /** A string is in normal form exactly when normalising leaves it as it is. */
  lemma NormalizedIsFixedPoint(s: string)
    ensures IsNormalized(s) <==> Normalize(s) == s
    ensures IsNormalized(Normalize(s))
  {
  }

  /** Normalising twice is normalising once. */
  lemma NormalizeIdempotent(s: string)
    ensures Normalize(Normalize(s)) == Normalize(s)
  {
  }

  /** A space in front of the input makes no difference. */
  lemma NormalizeIgnoresLeadingSpace(c: char, s: string)
    requires IsSpace(c)
    ensures Normalize([c] + s) == Normalize(s)
  {
    assert Lowercased([c] + s) == [LowerChar(c)] + Lowercased(s);
    TrimmedCons(LowerChar(c), Lowercased(s));
  }

  /** A space at the back of the input makes no difference. */
  lemma NormalizeIgnoresTrailingSpace(s: string, c: char)
    requires IsSpace(c)
    ensures Normalize(s + [c]) == Normalize(s)
  {
    assert Lowercased(s + [c]) == Lowercased(s) + [LowerChar(c)];
    TrimmedSnoc(Lowercased(s), LowerChar(c));
  }

  /** The same space on both sides of the input makes no difference. */
  lemma NormalizeIgnoresPadding(s: string, c: char)
    requires IsSpace(c)
    ensures Normalize([c] + s + [c]) == Normalize(s)
  {
    var t := s + [c];
    assert [c] + s + [c] == [c] + t;
    NormalizeIgnoresLeadingSpace(c, t);
    NormalizeIgnoresTrailingSpace(s, c);
  }

  lemma TrimmedCons(c: char, t: string)
    requires IsSpace(c)
    ensures Trimmed([c] + t) == Trimmed(t)
  {
    var s := [c] + t;
    assert s[1..] == t;
    assert LeadingSpaces(s) == 1 + LeadingSpaces(t);
    assert s[LeadingSpaces(s)..] == t[LeadingSpaces(t)..];
  }

  lemma TrimmedSnoc(t: string, c: char)
    requires IsSpace(c)
    ensures Trimmed(t + [c]) == Trimmed(t)
  {
    LeadingSpacesSnoc(t, c);
    var k := LeadingSpaces(t);
    if k < |t| {
      var u := t[k..];
      assert (t + [c])[LeadingSpaces(t + [c])..] == u + [c];
      DropTrailingSpacesSnoc(u, c);
    } else {
      assert (t + [c])[LeadingSpaces(t + [c])..] == [];
      assert t[k..] == [];
    }
  }

  lemma DropTrailingSpacesSnoc(u: string, c: char)
    requires IsSpace(c)
    ensures DropTrailingSpaces(u + [c]) == DropTrailingSpaces(u)
  {
    TrailingSpacesSnoc(u, c);
    assert (u + [c])[..|u| - TrailingSpaces(u)] == u[..|u| - TrailingSpaces(u)];
  }

  lemma {:induction false} LeadingSpacesSnoc(t: string, c: char)
    requires IsSpace(c)
    ensures LeadingSpaces(t) < |t| ==> LeadingSpaces(t + [c]) == LeadingSpaces(t)
    ensures LeadingSpaces(t) == |t| ==> LeadingSpaces(t + [c]) == |t| + 1
  {
    if t != [] {
      assert (t + [c])[1..] == t[1..] + [c];
      LeadingSpacesSnoc(t[1..], c);
    } else {
      assert (t + [c])[1..] == [];
    }
  }

  lemma TrailingSpacesSnoc(t: string, c: char)
    requires IsSpace(c)
    ensures TrailingSpaces(t + [c]) == 1 + TrailingSpaces(t)
  {
    assert (t + [c])[..|t|] == t;
  }

  /**
   * `s.components(separatedBy: String(sep))`: the pieces between the
   * separators, always at least one.
   */
  function Split(s: string, sep: char): (parts: seq<string>)
    ensures |parts| >= 1
    ensures forall i :: 0 <= i < |parts| ==> sep !in parts[i]
    ensures sep in s <==> |parts| > 1
  {
    if s == [] then [[]]
    else
      var rest := Split(s[1..], sep);
      if s[0] == sep then [[]] + rest
      else [[s[0]] + rest[0]] + rest[1..]
  }

  /** The pieces glued back together with `sep` between them. */
  function Join(parts: seq<string>, sep: char): string
    requires |parts| >= 1
  {
    if |parts| == 1 then parts[0] else parts[0] + [sep] + Join(parts[1..], sep)
  }

  /** Splitting loses nothing: the separators and pieces make up the text. */
  lemma {:induction false} JoinSplit(s: string, sep: char)
    ensures Join(Split(s, sep), sep) == s
  {
    if s != [] {
      var rest := Split(s[1..], sep);
      JoinSplit(s[1..], sep);
      if s[0] == sep {
        assert ([[]] + rest)[1..] == rest;
      } else if |rest| > 1 {
        var parts := [[s[0]] + rest[0]] + rest[1..];
        assert parts[1..] == rest[1..];
      }
    }
  }

  /** Pieces without separators are split back into themselves. */
  lemma {:induction false} SplitJoin(parts: seq<string>, sep: char)
    requires |parts| >= 1
    requires forall i :: 0 <= i < |parts| ==> sep !in parts[i]
    ensures Split(Join(parts, sep), sep) == parts
  {
    if |parts| == 1 {
      SplitNoSeparator(parts[0], sep);
    } else {
      SplitJoin(parts[1..], sep);
      SplitPrefix(parts[0], Join(parts[1..], sep), sep);
      assert [parts[0]] + parts[1..] == parts;
    }
  }

  lemma {:induction false} SplitNoSeparator(s: string, sep: char)
    requires sep !in s
    ensures Split(s, sep) == [s]
  {
    if s != [] {
      assert s[0] != sep;
      SplitNoSeparator(s[1..], sep);
      assert [s[0]] + s[1..] == s;
    }
  }

  lemma {:induction false} SplitPrefix(w: string, t: string, sep: char)
    requires sep !in w
    ensures Split(w + [sep] + t, sep) == [w] + Split(t, sep)
  {
    if w == [] {
      assert ([] + [sep] + t)[1..] == t;
    } else {
      assert (w + [sep] + t)[1..] == w[1..] + [sep] + t;
      SplitPrefix(w[1..], t, sep);
      assert [w[0]] + w[1..] == w;
    }
  }

  /**
   * A text that ends in the separator (a word list whose last line ends
   * in a newline) splits into a last piece that is empty.
   */
  lemma {:induction false} SplitTrailingSeparator(s: string, sep: char)
    requires |s| > 0 && s[|s| - 1] == sep
    ensures Split(s, sep)[|Split(s, sep)| - 1] == []
  {
    if |s| > 1 {
      assert s[1..][|s| - 2] == sep;
      SplitTrailingSeparator(s[1..], sep);
    }
  }

  /** `s.firstIndex(of: c)`. */
  function FirstIndexOf(s: string, c: char): (r: Option<nat>)
    ensures r.None? <==> c !in s
    ensures r.Some? ==> r.value < |s| && s[r.value] == c && c !in s[..r.value]
  {
    if s == [] then None
    else if s[0] == c then Some(0)
    else
      match FirstIndexOf(s[1..], c)
      case None => None
      case Some(p) =>
        assert s[..p + 1] == [s[0]] + s[1..][..p];
        Some(p + 1)
  }

  /** `s.remove(at: p)` on a copy: one occurrence of `s[p]` fewer. */
  function RemoveAt(s: string, p: nat): (r: string)
    requires p < |s|
    ensures |r| == |s| - 1
    ensures multiset(r) == multiset(s) - multiset{s[p]}
  {
    assert s == s[..p] + [s[p]] + s[p + 1..];
    s[..p] + s[p + 1..]
  }
}
