/** The upload form: turning the text of an uploaded file into the address
    list, and the form's state as its event handlers and the browser's
    callbacks change it. */
module Upload {
  import opened Wrappers
  import opened Seqs
  import opened Text
  import opened Types

  // ---------------------------------------------------------------------------
  // Address parsing: content.split(/[\r\n,]+/).map(trim).filter(nonEmpty)
  // ---------------------------------------------------------------------------

  /** The character class `[\r\n,]` of the split pattern. */
  predicate IsDelimiter(c: char) {
    c == '\r' || c == '\n' || c == ','
  }

  ghost predicate NoDelimiter(s: string) {
    forall j :: 0 <= j < |s| ==> !IsDelimiter(s[j])
  }

  /** Index of the first delimiter in `s`, or `|s|` when there is none. */
  function FirstDelimiter(s: string): (i: nat)
    ensures i <= |s|
    decreases |s|
  {
    if s == [] || IsDelimiter(s[0]) then 0 else 1 + FirstDelimiter(s[1..])
  }

  /** Where FirstDelimiter stops short of the end, there is a delimiter. */
  lemma {:induction false} FirstDelimiterFound(s: string)
    ensures FirstDelimiter(s) < |s| ==> IsDelimiter(s[FirstDelimiter(s)])
    decreases |s|
  {
    if s != [] && !IsDelimiter(s[0]) {
      FirstDelimiterFound(s[1..]);
    }
  }

  /** There is no delimiter before FirstDelimiter. */
  lemma {:induction false} FirstDelimiterNoneBefore(s: string)
    ensures NoDelimiter(s[..FirstDelimiter(s)])
    decreases |s|
  {
    if s != [] && !IsDelimiter(s[0]) {
      FirstDelimiterNoneBefore(s[1..]);
      assert s[..FirstDelimiter(s)] == [s[0]] + s[1..][..FirstDelimiter(s[1..])];
    }
  }

  /** A string without delimiters has its "first delimiter" at its end. */
  lemma {:induction false} FirstDelimiterOfPiece(s: string)
    requires NoDelimiter(s)
    ensures FirstDelimiter(s) == |s|
    decreases |s|
  {
    if s != [] {
      FirstDelimiterOfPiece(s[1..]);
    }
  }

  /** The first delimiter of a delimiter-free piece followed by a delimiter is
      the one right after the piece. */
  lemma {:induction false} FirstDelimiterAfterPiece(a: string, d: char, rest: string)
    requires NoDelimiter(a) && IsDelimiter(d)
    ensures FirstDelimiter(a + [d] + rest) == |a|
    decreases |a|
  {
    var s := a + [d] + rest;
    if a == [] {
      assert s[0] == d;
    } else {
      assert s[1..] == a[1..] + [d] + rest;
      FirstDelimiterAfterPiece(a[1..], d, rest);
    }
  }

  /** What follows a maximal run of delimiters at the start of `s`. */
  function SkipDelimiters(s: string): (r: string)
    ensures |r| <= |s|
    decreases |s|
  {
    if s != [] && IsDelimiter(s[0]) then SkipDelimiters(s[1..]) else s
  }

  /** SkipDelimiters leaves a suffix that does not start with a delimiter. */
  lemma {:induction false} SkipDelimitersSpec(s: string)
    ensures SkipDelimiters(s) == s[|s| - |SkipDelimiters(s)|..]
    ensures SkipDelimiters(s) != [] ==> !IsDelimiter(SkipDelimiters(s)[0])
    decreases |s|
  {
    if s != [] && IsDelimiter(s[0]) {
      SkipDelimitersSpec(s[1..]);
    }
  }

  /** `s.split(/[\r\n,]+/)`: the pieces between maximal delimiter runs, with an
      empty first (last) piece when `s` starts (ends) with a delimiter, and `[""]`
      for the empty string. */
  function SplitRuns(s: string): (pieces: seq<string>)
    ensures |pieces| >= 1
    decreases |s|
  {
    var i := FirstDelimiter(s);
    if i == |s| then [s]
    else [s[..i]] + SplitRuns(SkipDelimiters(s[i + 1..]))
  }

  /** No piece of the split contains a delimiter. */
  lemma {:induction false} SplitRunsPieces(s: string)
    ensures forall k :: 0 <= k < |SplitRuns(s)| ==> NoDelimiter(SplitRuns(s)[k])
    decreases |s|
  {
    var i := FirstDelimiter(s);
    FirstDelimiterNoneBefore(s);
    if i < |s| {
      var rest := SkipDelimiters(s[i + 1..]);
      SplitRunsPieces(rest);
      assert SplitRuns(s) == [s[..i]] + SplitRuns(rest);
    }
  }

  /** `pieces.map(email => email.trim())`. */
  function TrimAll(pieces: seq<string>): seq<string> {
    seq(|pieces|, k requires 0 <= k < |pieces| => Trim(pieces[k]))
  }

  /** The truthiness test of `.filter(email => email)`: a string is kept when non-empty. */
  predicate IsNonBlank(e: string, i: nat) {
    e != ""
  }

  /** The trimmed pieces that are not blank. */
  function ParsePieces(pieces: seq<string>): seq<string> {
    Filter(TrimAll(pieces), IsNonBlank)
  }

  /** The split pieces of an uploaded file, each trimmed. */
  function TrimmedPieces(content: string): seq<string> {
    TrimAll(SplitRuns(content))
  }

  /** The address list of an uploaded file: the trimmed pieces that are not blank. */
  function ParseAddresses(content: string): seq<string> {
    ParsePieces(SplitRuns(content))
  }

  /** A clean address: non-empty, free of delimiters and of surrounding whitespace. */
  ghost predicate IsCleanAddress(a: string) {
    a != "" && NoDelimiter(a) && Trim(a) == a
  }

  /** The truthiness filter keeps exactly the non-empty strings, in order, each
      as many times as it occurs. */
  lemma KeepNonBlank(t: seq<string>)
    ensures IsSubsequence(Filter(t, IsNonBlank), t)
    ensures forall a :: a in Filter(t, IsNonBlank) <==> a in t && a != ""
    ensures forall a :: multiset(Filter(t, IsNonBlank))[a] == if a != "" then multiset(t)[a] else 0
  {
    FilterIsSubsequence(t, IsNonBlank);
    FilterMultiset(t, IsNonBlank, (a: string) => a != "");
    FilterMembers(t, IsNonBlank);
    forall a | a in t && a != "" ensures a in Filter(t, IsNonBlank) {
      var i :| 0 <= i < |t| && t[i] == a;
      assert IsNonBlank(t[i], i);
    }
  }

  /** Of the trimmed pieces, parsing keeps exactly the non-blank ones, in order,
      with every repetition. */
  lemma ParsePiecesSpec(pieces: seq<string>)
    ensures IsSubsequence(ParsePieces(pieces), TrimAll(pieces))
    ensures forall a :: a in ParsePieces(pieces) <==> a in TrimAll(pieces) && a != ""
    ensures forall a :: multiset(ParsePieces(pieces))[a] == if a != "" then multiset(TrimAll(pieces))[a] else 0
  {
    KeepNonBlank(TrimAll(pieces));
  }

  /** Parsing keeps, in input order, exactly the non-blank trimmed pieces, and an
      address repeated in the file is repeated in the list as often. */
  lemma ParseAddressesSpec(content: string)
    ensures IsSubsequence(ParseAddresses(content), TrimmedPieces(content))
    ensures forall a :: a in ParseAddresses(content) <==> a in TrimmedPieces(content) && a != ""
    ensures forall a ::
              multiset(ParseAddresses(content))[a] ==
              if a != "" then multiset(TrimmedPieces(content))[a] else 0
  {
    ParsePiecesSpec(SplitRuns(content));
  }

  /** A slice of a delimiter-free string is delimiter-free. */
  lemma SliceNoDelimiter(p: string, b: nat, n: nat)
    requires b + n <= |p| && NoDelimiter(p)
    ensures NoDelimiter(p[b..b + n])
  {
    var q := p[b..b + n];
    forall j | 0 <= j < |q| ensures !IsDelimiter(q[j]) {
      assert q[j] == p[b + j];
    }
  }

  /** Trimming does not bring in delimiters. */
  lemma TrimNoDelimiter(p: string)
    requires NoDelimiter(p)
    ensures NoDelimiter(Trim(p))
  {
    TrimSlice(p);
    SliceNoDelimiter(p, TrimOffset(p), |Trim(p)|);
  }

  /** Trimming a delimiter-free piece gives a clean address unless it gives "". */
  lemma TrimmedPieceIsClean(p: string)
    requires NoDelimiter(p) && Trim(p) != ""
    ensures IsCleanAddress(Trim(p))
  {
    TrimNoDelimiter(p);
    TrimIdempotent(p);
  }

  /** Every parsed address is clean: non-empty, without '\r', '\n' or ',', and
      equal to its own trim. */
  lemma ParsedAddressesAreClean(content: string)
    ensures forall a :: a in ParseAddresses(content) ==> IsCleanAddress(a)
  {
    var pieces := SplitRuns(content);
    var trimmed := TrimmedPieces(content);
    ParseAddressesSpec(content);
    SplitRunsPieces(content);
    forall a | a in ParseAddresses(content)
      ensures IsCleanAddress(a)
    {
      var k :| 0 <= k < |trimmed| && trimmed[k] == a;
      TrimmedPieceIsClean(pieces[k]);
    }
  }

  /** Text made of whitespace and delimiters only. */
  ghost predicate IsBlankText(s: string) {
    forall j :: 0 <= j < |s| ==> IsWhitespace(s[j]) || IsDelimiter(s[j])
  }

  /** A slice of blank text is blank, and without delimiters it is all whitespace. */
  lemma BlankSlice(s: string, from: nat, to: nat)
    requires from <= to <= |s| && IsBlankText(s)
    ensures IsBlankText(s[from..to])
    ensures NoDelimiter(s[from..to]) ==> AllWhitespace(s[from..to])
  {
    assert forall j :: 0 <= j < to - from ==> s[from..to][j] == s[from + j];
  }

  /** Pieces of content made of whitespace and delimiters only are all whitespace. */
  lemma {:induction false} SplitRunsOfBlank(s: string)
    requires IsBlankText(s)
    ensures forall k :: 0 <= k < |SplitRuns(s)| ==> AllWhitespace(SplitRuns(s)[k])
    decreases |s|
  {
    var i := FirstDelimiter(s);
    FirstDelimiterNoneBefore(s);
    BlankSlice(s, 0, i);
    assert s[0..i] == s[..i];
    if i < |s| {
      var rest := SkipDelimiters(s[i + 1..]);
      SplitRunsStepJoin(s, i, rest);
      BlankSlice(s, |s| - |rest|, |s|);
      assert s[|s| - |rest|..|s|] == rest;
      SplitRunsOfBlank(rest);
      assert SplitRuns(s) == [s[..i]] + SplitRuns(rest);
    } else {
      assert SplitRuns(s) == [s];
    }
  }

  /** Pieces that all trim to "" parse to nothing. */
  lemma ParseOfBlankPieces(pieces: seq<string>)
    requires forall k :: 0 <= k < |pieces| ==> AllWhitespace(pieces[k])
    ensures ParsePieces(pieces) == []
  {
    forall k | 0 <= k < |pieces| ensures Trim(pieces[k]) == "" {
      TrimAllWhitespace(pieces[k]);
    }
    FilterDropsAll(TrimAll(pieces), IsNonBlank);
  }

  /** Blank content (empty, whitespace or delimiters only) parses to no address. */
  lemma BlankContentParsesEmpty(content: string)
    requires IsBlankText(content)
    ensures ParseAddresses(content) == []
  {
    SplitRunsOfBlank(content);
    ParseOfBlankPieces(SplitRuns(content));
  }

  /** A piece without delimiters is not split. */
  lemma SplitRunsOfPiece(c: string)
    requires NoDelimiter(c)
    ensures SplitRuns(c) == [c]
  {
    FirstDelimiterOfPiece(c);
  }

  /** Pieces that trim to non-empty strings parse to those strings. */
  lemma ParseOfPieces(pieces: seq<string>, xs: seq<string>)
    requires |pieces| == |xs|
    requires forall k :: 0 <= k < |xs| ==> Trim(pieces[k]) == xs[k] && xs[k] != ""
    ensures ParsePieces(pieces) == xs
  {
    assert TrimAll(pieces) == xs;
    FilterKeepsAll(xs, IsNonBlank);
  }

  /** Splitting addresses joined by newlines gives them back, when each is
      non-empty and free of delimiters. */
  lemma SplitRunsJoin(xs: seq<string>)
    requires xs != []
    requires forall k :: 0 <= k < |xs| ==> xs[k] != "" && NoDelimiter(xs[k])
    ensures SplitRuns(Join(xs, "\n")) == xs
  {
    var newline := "\n";
    assert IsDelimiterRun(newline) by {
      assert newline[0] == '\n';
    }
    var seps := seq(|xs| - 1, k => newline);
    assert forall k :: 0 <= k < |seps| ==> seps[k] == newline;
    JoinIsInterleave(xs, newline);
    SplitRunsInterleave(xs, seps);
  }

  /** A non-empty string made of delimiters only: what the split pattern matches. */
  ghost predicate IsDelimiterRun(d: string) {
    d != [] && forall j :: 0 <= j < |d| ==> IsDelimiter(d[j])
  }

  /** `xs[0] + seps[0] + xs[1] + ... + seps[n-2] + xs[n-1]`: pieces with a
      separator between each two. */
  function Interleave(xs: seq<string>, seps: seq<string>): string
    requires xs != [] && |seps| == |xs| - 1
    decreases |xs|
  {
    if |xs| == 1 then xs[0] else xs[0] + seps[0] + Interleave(xs[1..], seps[1..])
  }

  /** The delimiter runs SplitRuns cuts at, in order. */
  function DelimiterRuns(s: string): seq<string>
    decreases |s|
  {
    var i := FirstDelimiter(s);
    if i == |s| then []
    else
      var rest := SkipDelimiters(s[i + 1..]);
      [s[i..|s| - |rest|]] + DelimiterRuns(rest)
  }

  /** What SkipDelimiters drops is delimiters. */
  lemma {:induction false} SkipDelimitersCut(s: string)
    ensures forall j :: 0 <= j < |s| - |SkipDelimiters(s)| ==> IsDelimiter(s[j])
    decreases |s|
  {
    if s != [] && IsDelimiter(s[0]) {
      SkipDelimitersCut(s[1..]);
      assert forall j :: 1 <= j < |s| ==> s[j] == s[1..][j - 1];
    }
  }

  /** Delimiters in front of a string that does not start with one are skipped. */
  lemma {:induction false} SkipRun(d: string, rest: string)
    requires forall j :: 0 <= j < |d| ==> IsDelimiter(d[j])
    requires rest == [] || !IsDelimiter(rest[0])
    ensures SkipDelimiters(d + rest) == rest
    decreases |d|
  {
    if d != [] {
      assert (d + rest)[1..] == d[1..] + rest;
      SkipRun(d[1..], rest);
    } else {
      assert d + rest == rest;
    }
  }

  /** An interleaving does not start with a delimiter when its first piece is
      delimiter-free and, if more follow, non-empty. */
  lemma InterleaveStart(xs: seq<string>, seps: seq<string>)
    requires xs != [] && |seps| == |xs| - 1
    requires NoDelimiter(xs[0]) && (|xs| > 1 ==> xs[0] != [])
    ensures var s := Interleave(xs, seps); s == [] || !IsDelimiter(s[0])
  {
    if |xs| > 1 {
      var s := Interleave(xs, seps);
      assert s[0] == xs[0][0];
    }
  }

  /** A delimiter-free piece followed by a delimiter run splits off as the first
      piece, when what follows does not start with another delimiter. */
  lemma SplitRunsAfterRun(a: string, d: string, rest: string)
    requires NoDelimiter(a) && IsDelimiterRun(d)
    requires rest == [] || !IsDelimiter(rest[0])
    ensures SplitRuns(a + d + rest) == [a] + SplitRuns(rest)
  {
    var s := a + d + rest;
    var tail := d[1..] + rest;
    assert s == a + [d[0]] + tail;
    FirstDelimiterAfterPiece(a, d[0], tail);
    assert forall j :: 0 <= j < |d| - 1 ==> d[1..][j] == d[j + 1];
    SkipRun(d[1..], rest);
    assert s[|a| + 1..] == tail;
    assert s[..|a|] == a;
  }

  /** Splitting delimiter-free pieces separated by delimiter runs gives back the
      pieces, when every piece but the first and the last is non-empty. This
      covers CRLF line ends, ", " and ",\n" alike. */
  lemma {:induction false} SplitRunsInterleave(xs: seq<string>, seps: seq<string>)
    requires xs != [] && |seps| == |xs| - 1
    requires forall k :: 0 <= k < |xs| ==> NoDelimiter(xs[k])
    requires forall k :: 0 < k < |xs| - 1 ==> xs[k] != ""
    requires forall k :: 0 <= k < |seps| ==> IsDelimiterRun(seps[k])
    ensures SplitRuns(Interleave(xs, seps)) == xs
    decreases |xs|
  {
    if |xs| == 1 {
      SplitRunsOfPiece(xs[0]);
    } else {
      var rest := Interleave(xs[1..], seps[1..]);
      InterleaveStart(xs[1..], seps[1..]);
      SplitRunsInterleave(xs[1..], seps[1..]);
      SplitRunsAfterRun(xs[0], seps[0], rest);
      assert [xs[0]] + xs[1..] == xs;
    }
  }

  /** A delimiter followed by delimiters is a delimiter run. */
  lemma RunOfDelimiters(c: char, u: string)
    requires IsDelimiter(c) && forall j :: 0 <= j < |u| ==> IsDelimiter(u[j])
    ensures IsDelimiterRun([c] + u)
  {
    var d := [c] + u;
    forall j | 0 < j < |d| ensures IsDelimiter(d[j]) {
      assert d[j] == u[j - 1];
    }
  }

  /** The delimiter at `i` and those skipped after it form a run. */
  lemma SplitRunsStepRun(s: string, i: nat, rest: string)
    requires i < |s| && IsDelimiter(s[i]) && rest == SkipDelimiters(s[i + 1..])
    ensures i < |s| - |rest|
    ensures IsDelimiterRun(s[i..|s| - |rest|])
  {
    var t := s[i + 1..];
    var k := |t| - |rest|;
    SkipDelimitersCut(t);
    var u := t[..k];
    assert forall j :: 0 <= j < |u| ==> u[j] == t[j];
    RunOfDelimiters(s[i], u);
    assert s[i..i + 1 + k] == [s[i]] + u;
  }

  /** The input is what precedes `i`, the run, and the rest, which does not start
      with a delimiter. */
  lemma SplitRunsStepJoin(s: string, i: nat, rest: string)
    requires i < |s| && rest == SkipDelimiters(s[i + 1..])
    ensures i < |s| - |rest|
    ensures s == s[..i] + s[i..|s| - |rest|] + rest
    ensures rest == [] || !IsDelimiter(rest[0])
  {
    SkipDelimitersSpec(s[i + 1..]);
    Reassemble(s, i, rest);
  }

  /** A suffix of what follows position `i` puts `s` back together with the
      slices before it. */
  lemma Reassemble(s: string, i: nat, rest: string)
    requires i < |s| && |rest| <= |s| - i - 1
    requires rest == s[i + 1..][|s| - i - 1 - |rest|..]
    ensures s == s[..i] + s[i..|s| - |rest|] + rest
  {
    var m := |s| - |rest|;
    assert rest == s[m..];
    assert s[..i] + s[i..m] == s[..m];
  }

  /** Interleaving a piece and a run in front of a non-empty list of pieces. */
  lemma InterleaveCons(x: string, d: string, xs: seq<string>, seps: seq<string>)
    requires xs != [] && |seps| == |xs| - 1
    ensures Interleave([x] + xs, [d] + seps) == x + d + Interleave(xs, seps)
  {
    assert ([x] + xs)[1..] == xs && ([d] + seps)[1..] == seps;
  }

  /** A string that does not start with a delimiter but holds one has a non-empty
      first piece. */
  lemma FirstPieceNonEmpty(s: string)
    requires s != [] && !IsDelimiter(s[0])
    ensures SplitRuns(s)[0] != ""
  {
    var i := FirstDelimiter(s);
    if i < |s| {
      assert SplitRuns(s)[0] == s[..i];
    }
  }

  /** There is one run between each two pieces. */
  lemma {:induction false} DelimiterRunsCount(s: string)
    ensures |DelimiterRuns(s)| == |SplitRuns(s)| - 1
    decreases |s|
  {
    var i := FirstDelimiter(s);
    if i < |s| {
      DelimiterRunsCount(SkipDelimiters(s[i + 1..]));
    }
  }

  /** Each run cut at by the split is a non-empty run of delimiters. */
  lemma {:induction false} DelimiterRunsAreRuns(s: string)
    ensures forall k :: 0 <= k < |DelimiterRuns(s)| ==> IsDelimiterRun(DelimiterRuns(s)[k])
    decreases |s|
  {
    var i := FirstDelimiter(s);
    if i < |s| {
      var rest := SkipDelimiters(s[i + 1..]);
      var run := s[i..|s| - |rest|];
      FirstDelimiterFound(s);
      SplitRunsStepRun(s, i, rest);
      DelimiterRunsAreRuns(rest);
      var runs := DelimiterRuns(rest);
      assert DelimiterRuns(s) == [run] + runs;
      forall k | 0 < k < |runs| + 1 ensures IsDelimiterRun(([run] + runs)[k]) {
        assert ([run] + runs)[k] == runs[k - 1];
      }
    }
  }

  /** No piece of the split but the first and the last is empty. */
  lemma {:induction false} InnerPiecesNonEmpty(s: string)
    ensures forall k :: 0 < k < |SplitRuns(s)| - 1 ==> SplitRuns(s)[k] != ""
    decreases |s|
  {
    var i := FirstDelimiter(s);
    if i < |s| {
      var rest := SkipDelimiters(s[i + 1..]);
      SplitRunsStepJoin(s, i, rest);
      InnerPiecesNonEmpty(rest);
      var pieces := SplitRuns(rest);
      assert SplitRuns(s) == [s[..i]] + pieces;
      if |pieces| > 1 {
        FirstPieceNonEmpty(rest);
      }
      forall k | 1 < k < |pieces| ensures ([s[..i]] + pieces)[k] != "" {
        assert ([s[..i]] + pieces)[k] == pieces[k - 1];
      }
    }
  }

  /** Putting the runs back between the pieces gives the input. */
  lemma {:induction false} InterleaveSplitRuns(s: string)
    ensures |DelimiterRuns(s)| == |SplitRuns(s)| - 1
    ensures Interleave(SplitRuns(s), DelimiterRuns(s)) == s
    decreases |s|
  {
    DelimiterRunsCount(s);
    var i := FirstDelimiter(s);
    if i < |s| {
      var rest := SkipDelimiters(s[i + 1..]);
      var m := |s| - |rest|;
      SplitRunsStepJoin(s, i, rest);
      InterleaveSplitRuns(rest);
      InterleaveCons(s[..i], s[i..m], SplitRuns(rest), DelimiterRuns(rest));
    }
  }

  /** The split loses nothing but its delimiter runs: putting the runs back
      between the pieces gives the input, every run is non-empty and made of
      delimiters, and no piece but the first and the last is empty. With
      SplitRunsInterleave this says the pieces are the only such decomposition. */
  lemma SplitRunsRecompose(s: string)
    ensures |DelimiterRuns(s)| == |SplitRuns(s)| - 1
    ensures Interleave(SplitRuns(s), DelimiterRuns(s)) == s
    ensures forall k :: 0 <= k < |DelimiterRuns(s)| ==> IsDelimiterRun(DelimiterRuns(s)[k])
    ensures forall k :: 0 < k < |SplitRuns(s)| - 1 ==> SplitRuns(s)[k] != ""
  {
    DelimiterRunsAreRuns(s);
    InnerPiecesNonEmpty(s);
    InterleaveSplitRuns(s);
  }

  /** Clean addresses joined by newlines parse back to the same list; for the
      empty list the join is the empty string, which parses to nothing. */
  lemma ParseJoinedAddresses(xs: seq<string>)
    requires forall k :: 0 <= k < |xs| ==> IsCleanAddress(xs[k])
    ensures ParseAddresses(Join(xs, "\n")) == xs
  {
    if xs == [] {
      BlankContentParsesEmpty("");
    } else {
      SplitRunsJoin(xs);
      ParseOfPieces(xs, xs);
    }
  }

  /** Clean addresses separated by any delimiter runs parse back to the same list. */
  lemma ParseInterleavedAddresses(xs: seq<string>, seps: seq<string>)
    requires xs != [] && |seps| == |xs| - 1
    requires forall k :: 0 <= k < |xs| ==> IsCleanAddress(xs[k])
    requires forall k :: 0 <= k < |seps| ==> IsDelimiterRun(seps[k])
    ensures ParseAddresses(Interleave(xs, seps)) == xs
  {
    SplitRunsInterleave(xs, seps);
    ParseOfPieces(xs, xs);
  }

  /** A join is an interleaving with the same separator everywhere. */
  lemma {:induction false} JoinIsInterleave(xs: seq<string>, sep: string)
    requires xs != []
    ensures Join(xs, sep) == Interleave(xs, seq(|xs| - 1, k => sep))
    decreases |xs|
  {
    if |xs| > 1 {
      JoinIsInterleave(xs[1..], sep);
      assert seq(|xs| - 1, k => sep)[1..] == seq(|xs| - 2, k => sep);
    }
  }

  /** Clean addresses joined by one delimiter run parse back to the same list. */
  lemma ParseJoinedByRun(xs: seq<string>, sep: string)
    requires xs != [] && IsDelimiterRun(sep)
    requires forall k :: 0 <= k < |xs| ==> IsCleanAddress(xs[k])
    ensures ParseAddresses(Join(xs, sep)) == xs
  {
    var seps := seq(|xs| - 1, k => sep);
    JoinIsInterleave(xs, sep);
    ParseInterleavedAddresses(xs, seps);
  }

  /** CR followed by LF is a delimiter run. */
  lemma CrlfIsRun()
    ensures IsDelimiterRun("\r\n")
  {
    var crlf := "\r\n";
    assert crlf[0] == '\r' && crlf[1] == '\n';
  }

  /** A file of clean addresses on CRLF-terminated lines parses back to those
      addresses. */
  lemma ParseCrlfLines(xs: seq<string>)
    requires forall k :: 0 <= k < |xs| ==> IsCleanAddress(xs[k])
    ensures ParseAddresses(Join(xs, "\r\n")) == xs
  {
    if xs == [] {
      ParseJoinedAddresses(xs);
    } else {
      CrlfIsRun();
      ParseJoinedByRun(xs, "\r\n");
    }
  }

  /** A leading space is trimmed away. */
  lemma TrimAfterSpace(b: string)
    requires b != "" && Trim(b) == b
    ensures Trim(" " + b) == b
  {
    assert (" " + b)[1..] == b;
    assert TrimStart(" " + b) == TrimStart(b);
  }

  /** A space in front of a delimiter-free string brings in no delimiter. */
  lemma SpaceBeforeNoDelimiter(b: string)
    requires NoDelimiter(b)
    ensures NoDelimiter(" " + b)
  {
    var t := " " + b;
    forall j | 0 <= j < |t| ensures !IsDelimiter(t[j]) {
      if j > 0 {
        assert t[j] == b[j - 1];
      }
    }
  }

  /** Two delimiter-free pieces around a newline, the second non-empty, split
      into those two pieces. */
  lemma SplitRunsOfTwoLines(t: string, c: string)
    requires NoDelimiter(t) && NoDelimiter(c) && c != []
    ensures SplitRuns(t + "\n" + c) == [t, c]
  {
    var newline := "\n";
    assert IsDelimiterRun(newline) by {
      assert newline[0] == '\n';
    }
    SplitRunsOfPiece(c);
    SplitRunsAfterRun(t, newline, c);
  }

  /** The split of `a + ", " + b + "\n" + c` keeps the space in front of `b`. */
  lemma SplitCommaSpaceNewline(a: string, b: string, c: string)
    requires NoDelimiter(a) && NoDelimiter(b) && NoDelimiter(c) && c != []
    ensures SplitRuns(a + ", " + b + "\n" + c) == [a, " " + b, c]
  {
    var comma := ",";
    assert IsDelimiterRun(comma) by {
      assert comma[0] == ',';
    }
    var u := " " + b + "\n" + c;
    SpaceBeforeNoDelimiter(b);
    SplitRunsOfTwoLines(" " + b, c);
    assert u[0] == ' ';
    SplitRunsAfterRun(a, comma, u);
    CommaSpaceNewlineShape(a, b, c);
    assert [a] + [" " + b, c] == [a, " " + b, c];
  }

  /** `a + ", " + b + "\n" + c` regrouped around its comma. */
  lemma CommaSpaceNewlineShape(a: string, b: string, c: string)
    ensures a + ", " + b + "\n" + c == a + "," + (" " + b + "\n" + c)
  {
  }

  /** Three pieces that trim to non-empty strings parse to those three strings. */
  lemma ParseOfThree(p0: string, p1: string, p2: string, x0: string, x1: string, x2: string)
    requires Trim(p0) == x0 && Trim(p1) == x1 && Trim(p2) == x2
    requires x0 != "" && x1 != "" && x2 != ""
    ensures ParsePieces([p0, p1, p2]) == [x0, x1, x2]
  {
    var ps, xs := [p0, p1, p2], [x0, x1, x2];
    forall k | 0 <= k < 3 ensures Trim(ps[k]) == xs[k] && xs[k] != "" {
      if k == 0 {
        assert ps[k] == p0 && xs[k] == x0;
      } else if k == 1 {
        assert ps[k] == p1 && xs[k] == x1;
      } else {
        assert ps[k] == p2 && xs[k] == x2;
      }
    }
    ParseOfPieces(ps, xs);
  }

  /** Addresses separated by ", " and by a newline, as in
      "a@x.com, b@x.com\nc@x.com", come out as the three addresses in order:
      the space after the comma is trimmed away. */
  lemma ParseCommaSpaceNewline(a: string, b: string, c: string)
    requires IsCleanAddress(a) && IsCleanAddress(b) && IsCleanAddress(c)
    ensures ParseAddresses(a + ", " + b + "\n" + c) == [a, b, c]
  {
    SplitCommaSpaceNewline(a, b, c);
    TrimAfterSpace(b);
    ParseOfThree(a, " " + b, c, a, b, c);
  }

  // ---------------------------------------------------------------------------
  // The synthetic progress ticker: setProgress(prev => Math.min(prev + 10, 90))
  // ---------------------------------------------------------------------------

  /** The progress a tick of the interval leaves behind. */
  function TickProgress(p: int): int {
    if p + 10 < 90 then p + 10 else 90
  }

  /** The progress after `k` ticks starting from `p`. */
  function ProgressAfterTicks(p: int, k: nat): int
    decreases k
  {
    if k == 0 then p else TickProgress(ProgressAfterTicks(p, k - 1))
  }

  /** A tick never lowers a progress value of at most 90 and never takes it above 90. */
  lemma TickBounds(p: int)
    requires p <= 90
    ensures p <= TickProgress(p) <= 90
    ensures TickProgress(p) == p + 10 || TickProgress(p) == 90
  {
  }

  /** From any value of at most 90, `k` ticks reach `min(p + 10k, 90)`. */
  lemma {:induction false} ProgressAfterTicksClosed(p: int, k: nat)
    requires p <= 90
    ensures ProgressAfterTicks(p, k) == if p + 10 * k < 90 then p + 10 * k else 90
    decreases k
  {
    if k > 0 {
      ProgressAfterTicksClosed(p, k - 1);
    }
  }

  /** From 0, progress after `k` ticks is `min(10k, 90)`. */
  lemma ProgressFromZero(k: nat)
    ensures ProgressAfterTicks(0, k) == if 10 * k < 90 then 10 * k else 90
  {
    ProgressAfterTicksClosed(0, k);
  }

  /** Progress never decreases from one tick to the next and never passes 90. */
  lemma ProgressMonotone(p: int, k: nat)
    requires p <= 90
    ensures p <= ProgressAfterTicks(p, k) <= ProgressAfterTicks(p, k + 1) <= 90
  {
    ProgressAfterTicksClosed(p, k);
    ProgressAfterTicksClosed(p, k + 1);
  }

  /** Ticks run in two stretches add up: `a` ticks and then `b` more are `a + b` ticks. */
  lemma {:induction false} ProgressAfterTicksAdd(p: int, a: nat, b: nat)
    ensures ProgressAfterTicks(ProgressAfterTicks(p, a), b) == ProgressAfterTicks(p, a + b)
    decreases b
  {
    if b > 0 {
      ProgressAfterTicksAdd(p, a, b - 1);
    }
  }

  /** Ticking from a multiple of 10 in 0..90 stays a multiple of 10 in 0..90. */
  lemma TickKeepsStep(p: int)
    requires 0 <= p <= 90 && p % 10 == 0
    ensures 0 <= TickProgress(p) <= 90 && TickProgress(p) % 10 == 0
  {
  }

  /** A tick from 100, as an interval left running by a failed validation delivers
      after a later success, pulls progress back to 90. */
  lemma TickAfterCompletion()
    ensures TickProgress(100) == 90
  {
  }

  // ---------------------------------------------------------------------------
  // The form's state
  // ---------------------------------------------------------------------------

  /** What the form keeps of the selected browser File. */
  datatype FileInfo = FileInfo(name: string, mimeType: string, size: nat)

  const CsvType: string := "text/csv"
  const XlsxType: string := "application/vnd.openxmlformats-officedocument.spreadsheetml.sheet"

  /** The MIME-type gate of handleFileChange. */
  predicate IsAcceptedType(mimeType: string) {
    mimeType == CsvType || mimeType == XlsxType
  }

  /** Whether a change event's first file (absent when the picker was cancelled)
      passes the gate. */
  predicate Accepts(selected: Option<FileInfo>) {
    selected.Some? && IsAcceptedType(selected.value.mimeType)
  }

  /** `Math.floor(file.size / 50)`: the number of addresses the alert estimates for
      an accepted file, and the credits it says the file needs. */
  function CreditEstimate(f: FileInfo): nat {
    f.size / 50
  }

  /** The estimate is the number of whole 50-byte blocks in the file, and grows
      with the file size. */
  lemma CreditEstimateSpec(f: FileInfo, g: FileInfo)
    ensures CreditEstimate(f) * 50 <= f.size < (CreditEstimate(f) + 1) * 50
    ensures f.size <= g.size ==> CreditEstimate(f) <= CreditEstimate(g)
  {
  }

  /** The upload form. Besides the four state variables of the component, it
      counts the callbacks the browser still owes it: file reads whose `onload`
      has not run, intervals that have not been cleared, and validation calls
      that have not settled. Each event handler and each callback is a method. */
  class UploadForm {
    var file: Option<FileInfo>
    var progress: int
    var isProcessing: bool
    var validationResult: Option<ValidationResult>
    var pendingReads: nat
    var activeIntervals: nat
    var pendingValidations: nat

    /** Between events: a stored file is a CSV or XLSX file; progress is a
        multiple of 10 in 0..100 and only reaches 100 with a result; every
        unsettled validation still has its interval running; the processing
        flag is down. */
    predicate Valid()
      reads this
    {
      (file.Some? ==> IsAcceptedType(file.value.mimeType)) &&
      0 <= progress <= 100 && progress % 10 == 0 &&
      (validationResult.None? ==> progress <= 90) &&
      pendingValidations <= activeIntervals &&
      !isProcessing
    }

    /** The initial state: no file, progress 0, no result. */
    constructor ()
      ensures Valid()
      ensures file == None && progress == 0 && validationResult == None
      ensures pendingReads == 0 && activeIntervals == 0 && pendingValidations == 0
    {
      file := None;
      progress := 0;
      isProcessing := false;
      validationResult := None;
      pendingReads := 0;
      activeIntervals := 0;
      pendingValidations := 0;
    }

    /** handleFileChange: an accepted file is stored, progress goes back to 0 and
        the result is cleared; anything else only raises a toast. */
    method HandleFileChange(selected: Option<FileInfo>) returns (accepted: bool)
      requires Valid()
      modifies this
      ensures Valid()
      ensures accepted == Accepts(selected)
      ensures accepted ==> file == selected && progress == 0 && validationResult == None
      ensures !accepted ==> file == old(file) && progress == old(progress) &&
                            validationResult == old(validationResult)
      ensures pendingReads == old(pendingReads) && activeIntervals == old(activeIntervals) &&
              pendingValidations == old(pendingValidations)
    {
      accepted := Accepts(selected);
      if accepted {
        file := selected;
        progress := 0;
        validationResult := None;
      }
    }

    /** handleSubmit: without a file nothing happens; otherwise a read of the file
        is started. The flag raised at the start is lowered by the `finally`
        block before the handler returns, ahead of the read's `onload`. */
    method HandleSubmit() returns (started: bool)
      requires Valid()
      modifies this
      ensures Valid()
      ensures started == old(file).Some?
      ensures pendingReads == old(pendingReads) + (if started then 1 else 0)
      ensures file == old(file) && progress == old(progress) &&
              validationResult == old(validationResult)
      ensures activeIntervals == old(activeIntervals) && pendingValidations == old(pendingValidations)
    {
      if file.None? {
        return false;
      }
      isProcessing := true;
      pendingReads := pendingReads + 1;
      isProcessing := false;
      started := true;
    }

    /** The read's `onload`: the content is parsed into addresses, an interval
        starts ticking, and the addresses are sent for validation, even when
        there are none. The returned list is what is sent. */
    method OnLoad(content: string) returns (emails: seq<string>)
      requires Valid() && pendingReads > 0
      modifies this
      ensures Valid()
      ensures emails == ParseAddresses(content)
      ensures pendingReads == old(pendingReads) - 1
      ensures activeIntervals == old(activeIntervals) + 1
      ensures pendingValidations == old(pendingValidations) + 1
      ensures file == old(file) && progress == old(progress) &&
              validationResult == old(validationResult)
    {
      StartValidation();
      emails := ParseAddresses(content);
    }

    /** The state change of `onload`: the read is done, the progress interval
        starts and the validation call is pending. */
    method StartValidation()
      requires Valid() && pendingReads > 0
      modifies this
      ensures Valid()
      ensures pendingReads == old(pendingReads) - 1
      ensures activeIntervals == old(activeIntervals) + 1
      ensures pendingValidations == old(pendingValidations) + 1
      ensures file == old(file) && progress == old(progress) &&
              validationResult == old(validationResult)
    {
      pendingReads := pendingReads - 1;
      activeIntervals := activeIntervals + 1;
      pendingValidations := pendingValidations + 1;
    }

    /** One firing of a running interval. */
    method Tick()
      requires Valid() && activeIntervals > 0
      modifies this
      ensures Valid()
      ensures progress == TickProgress(old(progress))
      ensures file == old(file) && validationResult == old(validationResult)
      ensures pendingReads == old(pendingReads) && activeIntervals == old(activeIntervals) &&
              pendingValidations == old(pendingValidations)
    {
      if progress <= 90 {
        TickKeepsStep(progress);
      }
      progress := TickProgress(progress);
    }

    /** A validation call resolved: its interval is cleared, progress is forced to
        100 and the result is stored. */
    method OnValidated(result: ValidationResult)
      requires Valid() && pendingValidations > 0
      modifies this
      ensures Valid()
      ensures progress == 100 && validationResult == Some(result)
      ensures activeIntervals == old(activeIntervals) - 1
      ensures pendingValidations == old(pendingValidations) - 1
      ensures file == old(file) && pendingReads == old(pendingReads)
    {
      activeIntervals := activeIntervals - 1;
      pendingValidations := pendingValidations - 1;
      progress := 100;
      validationResult := Some(result);
    }

    /** A validation call rejected: only a toast is shown. The interval is not
        cleared and keeps ticking; progress and result are untouched. */
    method OnValidationFailed()
      requires Valid() && pendingValidations > 0
      modifies this
      ensures Valid()
      ensures pendingValidations == old(pendingValidations) - 1
      ensures activeIntervals == old(activeIntervals)
      ensures file == old(file) && progress == old(progress) &&
              validationResult == old(validationResult) && pendingReads == old(pendingReads)
    {
      pendingValidations := pendingValidations - 1;
    }

    /** A running interval fires `n` times in a row. */
    method TickTimes(n: nat)
      requires Valid() && activeIntervals > 0
      modifies this
      ensures Valid()
      ensures progress == ProgressAfterTicks(old(progress), n)
      ensures file == old(file) && validationResult == old(validationResult)
      ensures pendingReads == old(pendingReads) && activeIntervals == old(activeIntervals) &&
              pendingValidations == old(pendingValidations)
    {
      var i := 0;
      while i < n
        invariant 0 <= i <= n && Valid()
        invariant progress == ProgressAfterTicks(old(progress), i)
        invariant file == old(file) && validationResult == old(validationResult)
        invariant pendingReads == old(pendingReads) && activeIntervals == old(activeIntervals) &&
                  pendingValidations == old(pendingValidations)
      {
        Tick();
        i := i + 1;
      }
    }
  }

  // ---------------------------------------------------------------------------
  // Whole runs of the form
  // ---------------------------------------------------------------------------

  /** A fresh form given an accepted file, submitted, loaded with `content`,
      ticked `ticks` times and then resolved with `result`. The progress seen
      before resolution is `min(10 * ticks, 90)`; afterwards it is 100 and the
      result is stored. */
  method SuccessfulRun(f: FileInfo, content: string, ticks: nat, result: ValidationResult)
    returns (sent: seq<string>, before: int, after: int, shown: Option<ValidationResult>)
    requires IsAcceptedType(f.mimeType)
    ensures sent == ParseAddresses(content)
    ensures before == (if 10 * ticks < 90 then 10 * ticks else 90)
    ensures after == 100 && shown == Some(result)
  {
    var form := new UploadForm();
    var accepted := form.HandleFileChange(Some(f));
    var started := form.HandleSubmit();
    sent := form.OnLoad(content);
    form.TickTimes(ticks);
    before := form.progress;
    ProgressFromZero(ticks);
    form.OnValidated(result);
    after, shown := form.progress, form.validationResult;
  }

  /** The same run with the validation call rejected, after which the leaked
      interval ticks `more` times: no result is ever stored and progress stays
      at most 90, so it never reaches 100. */
  method FailedRun(f: FileInfo, content: string, ticks: nat, more: nat)
    returns (sent: seq<string>, final: int, shown: Option<ValidationResult>, running: nat)
    requires IsAcceptedType(f.mimeType)
    ensures sent == ParseAddresses(content)
    ensures final == (if 10 * (ticks + more) < 90 then 10 * (ticks + more) else 90)
    ensures final <= 90 && shown == None
    ensures running == 1
  {
    var form := new UploadForm();
    var accepted := form.HandleFileChange(Some(f));
    var started := form.HandleSubmit();
    sent := form.OnLoad(content);
    form.TickTimes(ticks);
    form.OnValidationFailed();
    form.TickTimes(more);
    ProgressAfterTicksAdd(0, ticks, more);
    ProgressFromZero(ticks + more);
    final, shown, running := form.progress, form.validationResult, form.activeIntervals;
  }

  /** A failed run followed by a successful retry of the same file: the retry's
      success sets progress to 100 and stores the result, but the interval the
      failed run never cleared is still running, and its next tick pulls the
      progress back to 90 while the result is shown. */
  method RetryAfterFailure(f: FileInfo, content: string, result: ValidationResult)
    returns (afterSuccess: int, afterLeakedTick: int, shown: Option<ValidationResult>, running: nat)
    requires IsAcceptedType(f.mimeType)
    ensures afterSuccess == 100 && afterLeakedTick == 90
    ensures shown == Some(result) && running == 1
  {
    var form := new UploadForm();
    var accepted := form.HandleFileChange(Some(f));
    var started := form.HandleSubmit();
    var sent := form.OnLoad(content);
    form.OnValidationFailed();
    started := form.HandleSubmit();
    sent := form.OnLoad(content);
    form.OnValidated(result);
    afterSuccess := form.progress;
    TickAfterCompletion();
    form.Tick();
    afterLeakedTick, shown, running := form.progress, form.validationResult, form.activeIntervals;
  }

  /** Submitting a file whose content has no address still sends a validation
      call, with the empty list. */
  method BlankUploadIsSent(f: FileInfo, content: string) returns (sent: seq<string>, pending: nat)
    requires IsAcceptedType(f.mimeType)
    requires forall j :: 0 <= j < |content| ==> IsWhitespace(content[j]) || IsDelimiter(content[j])
    ensures sent == [] && pending == 1
  {
    var form := new UploadForm();
    var accepted := form.HandleFileChange(Some(f));
    var started := form.HandleSubmit();
    sent := form.OnLoad(content);
    BlankContentParsesEmpty(content);
    pending := form.pendingValidations;
  }

  /** A submit before any file is accepted does nothing. */
  method SubmitWithoutFile(rejected: Option<FileInfo>) returns (started: bool, readsStarted: nat)
    requires !Accepts(rejected)
    ensures !started && readsStarted == 0
  {
    var form := new UploadForm();
    var accepted := form.HandleFileChange(rejected);
    started := form.HandleSubmit();
    readsStarted := form.pendingReads;
  }
}
