/**
 * The GLib string helpers the settings dialog relies on: splitting a
 * comma-separated list (`g_strsplit_set (s, ",", 0)`), the comma join that
 * `g_strconcat` builds up piece by piece, and whitespace stripping
 * (`g_strstrip`). Strings are sequences of characters.
 */
module GStrings {

  /** The pieces of `s` cut at every comma, empty pieces kept; there is always at least one. */
  function Pieces(s: string): (r: seq<string>)
    ensures |r| >= 1
    ensures forall k :: 0 <= k < |r| ==> ',' !in r[k]
  {
    if |s| == 0 then [""]
    else
      var rest := Pieces(s[1..]);
      if s[0] == ',' then [""] + rest
      else [[s[0]] + rest[0]] + rest[1..]
  }

  /**
   * `g_strsplit_set (s, ",", 0)`: an empty string gives an empty vector,
   * any other string gives one more piece than it has commas.
   */
  function Split(s: string): (r: seq<string>)
    ensures r == [] <==> s == ""
    ensures forall k :: 0 <= k < |r| ==> ',' !in r[k]
  {
    if s == "" then [] else Pieces(s)
  }

  /**
   * The pieces of `xs` joined with a single comma between neighbours: the
   * list starts with the first piece and has a comma as soon as there are
   * two pieces.
   */
  function Join(xs: seq<string>): (r: string)
    ensures |xs| >= 1 ==> |xs[0]| <= |r| && r[..|xs[0]|] == xs[0]
    ensures |xs| >= 2 ==> ',' in r
  {
    if |xs| == 0 then ""
    else if |xs| == 1 then xs[0]
    else xs[0] + "," + Join(xs[1..])
  }

  /** Appending one more piece adds a comma and that piece at the end. */
  lemma {:induction false} JoinSnoc(xs: seq<string>, x: string)
    requires |xs| >= 1
    ensures Join(xs + [x]) == Join(xs) + "," + x
    decreases |xs|
  {
    if |xs| == 1 {
      assert xs + [x] == [xs[0], x];
      assert [xs[0], x][1..] == [x];
    } else {
      assert (xs + [x])[1..] == xs[1..] + [x];
      JoinSnoc(xs[1..], x);
    }
  }

  /** Cutting a string at its commas and joining the pieces again gives the string back. */
  lemma {:induction false} JoinPieces(s: string)
    ensures Join(Pieces(s)) == s
    decreases |s|
  {
    if |s| > 0 {
      var rest := Pieces(s[1..]);
      JoinPieces(s[1..]);
      if s[0] == ',' {
        assert ([""] + rest)[1..] == rest;
        assert s == [s[0]] + s[1..];
      } else if |rest| == 1 {
        assert s == [s[0]] + s[1..];
      } else {
        var p := [[s[0]] + rest[0]] + rest[1..];
        assert p[1..] == rest[1..];
        assert Join(rest) == rest[0] + "," + Join(rest[1..]);
        assert s == [s[0]] + s[1..];
      }
    }
  }

  /** Join undoes Split for every string, the empty one included. */
  lemma JoinSplit(s: string)
    ensures Join(Split(s)) == s
  {
    if s != "" {
      JoinPieces(s);
    }
  }

  /** A comma-free prefix extends the first piece and leaves the others alone. */
  lemma {:induction false} PiecesPrefix(a: string, s: string)
    requires ',' !in a
    ensures Pieces(a + s) == [a + Pieces(s)[0]] + Pieces(s)[1..]
    decreases |a|
  {
    if |a| > 0 {
      assert (a + s)[1..] == a[1..] + s;
      assert (a + s)[0] == a[0];
      PiecesPrefix(a[1..], s);
      assert [a[0]] + (a[1..] + Pieces(s)[0]) == a + Pieces(s)[0];
    } else {
      assert a + s == s;
      assert a + Pieces(s)[0] == Pieces(s)[0];
      assert Pieces(s) == [Pieces(s)[0]] + Pieces(s)[1..];
    }
  }

  /** Joining non-empty comma-free pieces and cutting again yields exactly those pieces. */
  lemma {:induction false} PiecesJoin(xs: seq<string>)
    requires |xs| >= 1
    requires forall k :: 0 <= k < |xs| ==> ',' !in xs[k]
    ensures Pieces(Join(xs)) == xs
    decreases |xs|
  {
    if |xs| == 1 {
      PiecesPrefix(xs[0], "");
      assert xs[0] + "" == xs[0];
    } else {
      var tail := Join(xs[1..]);
      PiecesJoin(xs[1..]);
      assert ("," + tail)[0] == ',';
      assert ("," + tail)[1..] == tail;
      assert Pieces("," + tail) == [""] + xs[1..];
      assert Join(xs) == xs[0] + ("," + tail);
      PiecesPrefix(xs[0], "," + tail);
      assert xs[0] + "" == xs[0];
    }
  }

  /**
   * Split undoes Join, except that a single empty piece joins to "" and
   * GLib splits "" into no pieces at all.
   */
  lemma SplitJoin(xs: seq<string>)
    requires |xs| >= 1
    requires forall k :: 0 <= k < |xs| ==> ',' !in xs[k]
    requires !(|xs| == 1 && xs[0] == "")
    ensures Split(Join(xs)) == xs
  {
    if |xs| > 1 {
      assert Join(xs) == xs[0] + "," + Join(xs[1..]);
      assert (xs[0] + "," + Join(xs[1..]))[|xs[0]|] == ',';
    }
    PiecesJoin(xs);
  }

  /**
   * The characters `g_ascii_isspace` accepts: space, tab, newline, form
   * feed and carriage return. Vertical tab is not among them: GLib's
   * ASCII table marks it as a control character only.
   */
  predicate IsSpace(c: char)
  {
    c == ' ' || c == '\t' || c == '\n' || c as int == 12 || c == '\r'
  }

  predicate AllSpace(s: string)
  {
    forall k :: 0 <= k < |s| ==> IsSpace(s[k])
  }

  /** The characters of `s` at positions `i` up to (not including) `j` are all whitespace. */
  predicate SpaceBetween(s: string, i: int, j: int)
  {
    forall k :: 0 <= i <= k < j <= |s| ==> IsSpace(s[k])
  }

  /** How many whitespace characters `s` starts with: all of them, up to the first that is not whitespace. */
  function LeadingSpace(s: string): (n: nat)
    ensures n <= |s| && SpaceBetween(s, 0, n)
    ensures n < |s| ==> !IsSpace(s[n])
    decreases |s|
  {
    if |s| > 0 && IsSpace(s[0]) then 1 + LeadingSpace(s[1..]) else 0
  }

  /** How many whitespace characters `s` ends with: all of them, back to the last that is not whitespace. */
  function TrailingSpace(s: string): (n: nat)
    ensures n <= |s| && SpaceBetween(s, |s| - n, |s|)
    ensures n < |s| ==> !IsSpace(s[|s| - n - 1])
    decreases |s|
  {
    if |s| > 0 && IsSpace(s[|s| - 1]) then 1 + TrailingSpace(s[..|s| - 1]) else 0
  }

  /** `g_strchug`: drops the leading whitespace; what it keeps is a suffix that does not start with whitespace. */
  function Chug(s: string): (r: string)
    ensures |r| <= |s| && r == s[|s| - |r|..]
    ensures SpaceBetween(s, 0, |s| - |r|)
    ensures r == "" || !IsSpace(r[0])
  {
    s[LeadingSpace(s)..]
  }

  /** `g_strchomp`: drops the trailing whitespace; what it keeps is a prefix that does not end in whitespace. */
  function Chomp(s: string): (r: string)
    ensures |r| <= |s| && r == s[..|r|]
    ensures SpaceBetween(s, |r|, |s|)
    ensures r == "" || !IsSpace(r[|r| - 1])
  {
    s[..|s| - TrailingSpace(s)]
  }

  /** `r`, found at offset `a` of `s`, cuts `s` into three stretches. */
  lemma Around(s: string, a: nat, r: string)
    requires a + |r| <= |s|
    requires r == s[a..a + |r|]
    ensures s == s[..a] + r + s[a + |r|..]
  {
  }

  /**
   * `g_strstrip`, which GLib defines as `g_strchomp (g_strchug (s))`: the
   * stretch of `s` that starts at its first non-whitespace character and
   * ends at its last, or "" when `s` is all whitespace.
   */
  function Strip(s: string): (r: string)
    ensures r == "" <==> AllSpace(s)
    ensures r != "" ==> !IsSpace(r[0]) && !IsSpace(r[|r| - 1])
    ensures var a := LeadingSpace(s);
      && a + |r| <= |s| && r == s[a..a + |r|]
      && SpaceBetween(s, 0, a) && SpaceBetween(s, a + |r|, |s|)
  {
    var a := LeadingSpace(s);
    var c := Chug(s);
    var r := Chomp(c);
    assert SpaceBetween(s, a + |r|, |s|) by {
      forall k | a + |r| <= k < |s|
        ensures IsSpace(s[k])
      {
        assert s[k] == c[k - a];
      }
    }
    assert r == "" ==> c == "";
    assert r != "" ==> r[0] == s[a] && r[|r| - 1] == s[a + |r| - 1];
    r
  }

  /** Stripping an already stripped string changes nothing. */
  lemma StripIdempotent(s: string)
    ensures Strip(Strip(s)) == Strip(s)
  {
    var r := Strip(s);
    if r != "" {
      assert LeadingSpace(r) == 0;
      assert Chug(r) == r[0..] == r;
      assert TrailingSpace(r) == 0;
      assert Chomp(r) == r[..|r|] == r;
    }
  }

}
