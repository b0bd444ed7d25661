/** The two pieces of string work the application does itself: `str.strip()`
    on the error text of a failed uninstall, and `str.replace(marker, "")`
    that takes the " (already installed)" marker back off a list label. */
module Text {

  /** The code point ranges Python's `str.isspace()` accepts: the characters
      whose bidirectional class is WS, B or S, or whose category is Zs. */
  const SpaceRanges: seq<(char, char)> := [
    ('\U{0009}', '\U{000D}'), ('\U{001C}', '\U{0020}'), ('\U{0085}', '\U{0085}'),
    ('\U{00A0}', '\U{00A0}'), ('\U{1680}', '\U{1680}'), ('\U{2000}', '\U{200A}'),
    ('\U{2028}', '\U{2029}'), ('\U{202F}', '\U{202F}'), ('\U{205F}', '\U{205F}'),
    ('\U{3000}', '\U{3000}')]

  predicate InRanges(c: char, ranges: seq<(char, char)>)
  {
    ranges != [] && (ranges[0].0 <= c <= ranges[0].1 || InRanges(c, ranges[1..]))
  }

  /** Python's `str.isspace()` for one character. */
  predicate IsSpace(c: char)
  {
    InRanges(c, SpaceRanges)
  }

  /** How many leading characters of `s` satisfy `space`. */
  function LeadingRun(s: string, space: char -> bool): (n: nat)
    ensures n <= |s|
    ensures forall k :: 0 <= k < n ==> space(s[k])
    ensures n < |s| ==> !space(s[n])
  {
    if s != [] && space(s[0]) then 1 + LeadingRun(s[1..], space) else 0
  }

  /** Where the trailing run of `space` characters of `s` starts. */
  function TrailingRun(s: string, space: char -> bool): (n: nat)
    ensures n <= |s|
    ensures forall k :: n <= k < |s| ==> space(s[k])
    ensures 0 < n ==> !space(s[n - 1])
  {
    if s != [] && space(s[|s| - 1]) then TrailingRun(s[..|s| - 1], space) else |s|
  }

  /** The leading run of `space` characters is cut off, then the trailing
      run of what is left. */
  function Cut(s: string, space: char -> bool): (r: string)
    ensures |r| <= |s|
    ensures r != [] ==> !space(r[0]) && !space(r[|r| - 1])
  {
    var t := s[LeadingRun(s, space)..];
    t[..TrailingRun(t, space)]
  }

  /** Python's `s.strip()`. */
  function Strip(s: string): (r: string)
    ensures |r| <= |s|
    ensures r != [] ==> !IsSpace(r[0]) && !IsSpace(r[|r| - 1])
  {
    Cut(s, IsSpace)
  }

  /** `s[i..j]` is what is left once the surrounding `space` characters of
      `s` are removed: everything outside it satisfies `space`, and it is
      either empty (then all of `s` does) or starts and ends with a character
      that does not. */
  predicate StrippedAt(s: string, i: nat, j: nat, space: char -> bool)
  {
    i <= j <= |s|
    && (forall k :: 0 <= k < i ==> space(s[k]))
    && (forall k :: j <= k < |s| ==> space(s[k]))
    && (i < j ==> !space(s[i]) && !space(s[j - 1]))
    && (i == j ==> forall k :: 0 <= k < |s| ==> space(s[k]))
  }

  /** The leading run ends at the first character that is not `space`. */
  lemma LeadingRunStopsAt(s: string, i: nat, space: char -> bool)
    requires i < |s|
    requires forall k :: 0 <= k < i ==> space(s[k])
    requires !space(s[i])
    ensures LeadingRun(s, space) == i
  {
  }

  /** The trailing run starts just after the last character that is not
      `space`. */
  lemma TrailingRunStopsAt(t: string, m: nat, space: char -> bool)
    requires 0 < m <= |t|
    requires forall k :: m <= k < |t| ==> space(t[k])
    requires !space(t[m - 1])
    ensures TrailingRun(t, space) == m
  {
  }

  /** After the leading run `s[..i]` is cut off, the trailing run of what is
      left starts where the trailing run of `s` does, shifted by `i`. */
  lemma TrailingRunOfSuffix(s: string, i: nat, j: nat, space: char -> bool)
    requires i < j <= |s|
    requires forall k :: j <= k < |s| ==> space(s[k])
    requires !space(s[j - 1])
    ensures TrailingRun(s[i..], space) == j - i
  {
    var t := s[i..];
    forall k | j - i <= k < |t| ensures space(t[k]) {
      assert t[k] == s[i + k];
    }
    assert t[j - i - 1] == s[j - 1];
    TrailingRunStopsAt(t, j - i, space);
  }

  /** With a non-blank middle `s[i..j]`, cutting both runs leaves exactly it. */
  lemma CutAroundMiddle(s: string, i: nat, j: nat, space: char -> bool)
    requires i < j <= |s|
    requires forall k :: 0 <= k < i ==> space(s[k])
    requires forall k :: j <= k < |s| ==> space(s[k])
    requires !space(s[i]) && !space(s[j - 1])
    ensures Cut(s, space) == s[i..j]
  {
    LeadingRunStopsAt(s, i, space);
    TrailingRunOfSuffix(s, i, j, space);
  }

  /** A string made only of `space` characters is cut down to nothing. */
  lemma CutBlank(s: string, space: char -> bool)
    requires forall k :: 0 <= k < |s| ==> space(s[k])
    ensures Cut(s, space) == []
  {
    assert LeadingRun(s, space) == |s|;
  }

  /** `Strip` removes exactly the surrounding whitespace, no more and no less. */
  lemma StripIsStrippedSlice(s: string, i: nat, j: nat)
    requires StrippedAt(s, i, j, IsSpace)
    ensures Strip(s) == s[i..j]
  {
    if i < j {
      CutAroundMiddle(s, i, j, IsSpace);
    } else {
      CutBlank(s, IsSpace);
    }
  }

  /** Stripping twice is stripping once. */
  lemma StripIdempotent(s: string)
    ensures Strip(Strip(s)) == Strip(s)
  {
    var r := Strip(s);
    StripIsStrippedSlice(r, 0, |r|);
  }

  /** The label marker of an item that is already installed. */
  const Marker: string := " (already installed)"

  /** The marker occurs in `s` starting at position `p`. */
  predicate MarkerAt(s: string, p: nat)
  {
    p + |Marker| <= |s| && s[p..p + |Marker|] == Marker
  }

  predicate ContainsMarker(s: string)
  {
    exists p: nat :: p <= |s| && MarkerAt(s, p)
  }

  /** Python's `s.replace(Marker, "")`: scanning left to right, every
      occurrence of the marker that does not overlap an earlier removed one
      is removed. */
  function RemoveMarker(s: string): (r: string)
    ensures |r| <= |s|
    decreases |s|
  {
    if |s| < |Marker| then s
    else if s[..|Marker|] == Marker then RemoveMarker(s[|Marker|..])
    else [s[0]] + RemoveMarker(s[1..])
  }

  /** A text without the marker is left as it is. */
  lemma {:induction false} RemoveMarkerWithoutMarker(s: string)
    requires !ContainsMarker(s)
    ensures RemoveMarker(s) == s
    decreases |s|
  {
    if |s| >= |Marker| {
      assert !MarkerAt(s, 0);
      NoMarkerInTail(s);
      RemoveMarkerWithoutMarker(s[1..]);
      assert [s[0]] + s[1..] == s;
    }
  }

  /** No proper suffix of the marker is also a prefix of it, so an occurrence
      can never straddle the end of a name and the start of the marker. */
  lemma MarkerHasNoBorder(d: nat)
    requires 0 < d < |Marker|
    ensures Marker[d..] != Marker[..|Marker| - d]
  {
    if d == 9 {
      assert Marker[d..][1] == 'i' && Marker[..|Marker| - d][1] == '(';
    } else {
      assert Marker[d..][0] != ' ';
    }
  }

  /** A non-empty name without the marker, followed by the marker, does not
      start with the marker. */
  lemma NoMarkerAtFront(name: string)
    requires name != [] && !ContainsMarker(name)
    ensures (name + Marker)[..|Marker|] != Marker
  {
    var s := name + Marker;
    if s[..|Marker|] == Marker {
      if |name| >= |Marker| {
        assert s[..|Marker|] == name[..|Marker|];
        assert MarkerAt(name, 0);
      } else {
        var d := |name|;
        assert Marker[d..] == s[d..|Marker|];
        assert s[d..|Marker|] == Marker[..|Marker| - d];
        MarkerHasNoBorder(d);
      }
    }
  }

  /** Dropping the first character cannot create an occurrence. */
  lemma NoMarkerInTail(s: string)
    requires s != [] && !ContainsMarker(s)
    ensures !ContainsMarker(s[1..])
  {
    forall p: nat | p <= |s[1..]| && MarkerAt(s[1..], p) ensures MarkerAt(s, p + 1) {
      assert s[1..][p..p + |Marker|] == s[p + 1..p + 1 + |Marker|];
    }
  }

  /** The marker alone is removed entirely. */
  lemma RemoveMarkerOfMarker()
    ensures RemoveMarker(Marker) == []
  {
    assert Marker[..|Marker|] == Marker;
    assert Marker[|Marker|..] == [];
  }

  /** A text that does not start with the marker keeps its first character. */
  lemma RemoveMarkerKeepsFirst(s: string)
    requires |Marker| <= |s| && s[..|Marker|] != Marker
    ensures RemoveMarker(s) == [s[0]] + RemoveMarker(s[1..])
  {
  }

  /** Dropping the first character of `name + m` drops it from `name`. */
  lemma TailOfAppend(name: string, m: string)
    requires name != []
    ensures (name + m)[0] == name[0]
    ensures (name + m)[1..] == name[1..] + m
    ensures [name[0]] + name[1..] == name
  {
  }

  /** One step of `RemoveMarkerAfterAppend`: when the label of the tail
      decodes to the tail and the label does not start with the marker, the
      label of the whole name decodes to the name. */
  lemma RemoveMarkerAppendStep(name: string)
    requires name != []
    requires (name + Marker)[..|Marker|] != Marker
    requires RemoveMarker(name[1..] + Marker) == name[1..]
    ensures RemoveMarker(name + Marker) == name
  {
    RemoveMarkerKeepsFirst(name + Marker);
    TailOfAppend(name, Marker);
  }

  /** Taking the marker back off a label that carries it gives the name,
      provided the name does not itself contain the marker. */
  lemma {:induction false} RemoveMarkerAfterAppend(name: string)
    requires !ContainsMarker(name)
    ensures RemoveMarker(name + Marker) == name
    decreases |name|
  {
    if name == [] {
      assert name + Marker == Marker;
      RemoveMarkerOfMarker();
    } else {
      NoMarkerAtFront(name);
      NoMarkerInTail(name);
      RemoveMarkerAfterAppend(name[1..]);
      RemoveMarkerAppendStep(name);
    }
  }
}
