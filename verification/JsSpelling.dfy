/**
 Normalised targets told by their pieces: what stands between slashes of either kind. Two targets
 are normalised to the same text exactly if the same pieces are left of both.
 */
module JsSpelling {
  import opened JsTarget

  /** What stands between the slashes, forward or backward. */
  function Split(s: string): (ps: seq<string>)
    ensures ps != []
    decreases |s|
  {
    if s == "" then [""]
    else if s[0] == '/' || s[0] == '\\' then [""] + Split(s[1..])
    else
      var rest := Split(s[1..]);
      [[s[0]] + rest[0]] + rest[1..]
  }

  /** Put together again with single slashes. */
  function Joined(ps: seq<string>): string
    requires ps != []
  {
    if |ps| == 1 then ps[0] else ps[0] + "/" + Joined(ps[1..])
  }

  /** Without empty pieces, unless the last one is empty. */
  function Inner(ps: seq<string>): (r: seq<string>)
    requires ps != []
    ensures r != []
  {
    if |ps| == 1 then ps else if ps[0] == "" then Inner(ps[1..]) else [ps[0]] + Inner(ps[1..])
  }

  /** Runs of slashes count as one: only the first and the last piece may be empty. */
  function Squeezed(ps: seq<string>): (r: seq<string>)
    requires ps != []
    ensures r != []
  {
    if |ps| == 1 then ps else [ps[0]] + Inner(ps[1..])
  }

  /** Leading pieces `.` with a slash behind them are dropped. */
  function WithoutDots(ps: seq<string>): (r: seq<string>)
    requires ps != []
    ensures r != []
  {
    if |ps| >= 2 && ps[0] == "." then WithoutDots(ps[1..]) else ps
  }

  /** What is left of a target. */
  function Pieces(raw: string): (ps: seq<string>)
    ensures ps != []
  {
    WithoutDots(Squeezed(Split(Strip(raw))))
  }

  predicate SlashFree(ps: seq<string>) {
    forall i :: 0 <= i < |ps| ==> '/' !in ps[i] && '\\' !in ps[i]
  }

  lemma {:induction false} SplitIsSlashFree(s: string)
    ensures SlashFree(Split(s))
    decreases |s|
  {
    if s != "" {
      SplitIsSlashFree(s[1..]);
    }
  }

  lemma {:induction false} InnerIsSlashFree(ps: seq<string>)
    requires ps != [] && SlashFree(ps)
    ensures SlashFree(Inner(ps))
    decreases |ps|
  {
    if |ps| > 1 {
      InnerIsSlashFree(ps[1..]);
    }
  }

  lemma {:induction false} WithoutDotsIsSlashFree(ps: seq<string>)
    requires ps != [] && SlashFree(ps)
    ensures SlashFree(WithoutDots(ps))
    decreases |ps|
  {
    if |ps| >= 2 && ps[0] == "." {
      WithoutDotsIsSlashFree(ps[1..]);
    }
  }

  lemma PiecesAreSlashFree(raw: string)
    ensures SlashFree(Pieces(raw))
  {
    var ps := Split(Strip(raw));
    SplitIsSlashFree(Strip(raw));
    if |ps| > 1 {
      InnerIsSlashFree(ps[1..]);
    }
    WithoutDotsIsSlashFree(Squeezed(ps));
  }

  lemma JoinedCons(head: string, tail: seq<string>)
    requires tail != []
    ensures Joined([head] + tail) == head + "/" + Joined(tail)
  {
    assert ([head] + tail)[1..] == tail;
  }

  lemma JoinedHead(c: char, ps: seq<string>)
    requires ps != []
    ensures Joined([[c] + ps[0]] + ps[1..]) == [c] + Joined(ps)
  {
    assert ([[c] + ps[0]] + ps[1..])[1..] == ps[1..];
    if |ps| > 1 {
      assert [c] + ps[0] + "/" + Joined(ps[1..]) == [c] + (ps[0] + "/" + Joined(ps[1..]));
    }
  }

  /** Collapsing runs of slashes is squeezing the pieces. */
  lemma {:induction false} CollapsedIsSqueezed(s: string)
    ensures Collapse(Slashes(s)) == Joined(Squeezed(Split(s)))
    decreases |s|
  {
    if s != "" {
      var t := s[1..];
      var u, ps := Slashes(s), Split(t);
      assert u[1..] == Slashes(t);
      CollapsedIsSqueezed(t);
      if s[0] != '/' && s[0] != '\\' {
        SqueezedHead(s[0], ps);
        JoinedHead(s[0], Squeezed(ps));
      } else {
        SqueezedSlash(t);
        if t != "" && u[1] != '/' {
          JoinedCons("", Squeezed(ps));
        }
      }
    }
  }

  /** A character before the first piece. */
  lemma SqueezedHead(c: char, ps: seq<string>)
    requires ps != []
    ensures Squeezed([[c] + ps[0]] + ps[1..]) == [[c] + Squeezed(ps)[0]] + Squeezed(ps)[1..]
  {
    var qs := [[c] + ps[0]] + ps[1..];
    assert qs[1..] == ps[1..];
  }

  /** A slash before the first piece: one more in a run, or an empty piece. */
  lemma SqueezedSlash(t: string)
    ensures var ps := Split(t);
            Squeezed([""] + ps)
            == if t != "" && (t[0] == '/' || t[0] == '\\') then Squeezed(ps) else [""] + Squeezed(ps)
  {
    var ps := Split(t);
    assert ([""] + ps)[1..] == ps;
    if t != "" && (t[0] == '/' || t[0] == '\\') {
      assert ps[1..] == Split(t[1..]);
    } else if t != "" {
      assert ps[0] != "";
    }
  }

  /** Dropping leading `./` is dropping leading pieces `.`. */
  lemma {:induction false} DroppedIsWithoutDots(ps: seq<string>)
    requires ps != [] && SlashFree(ps)
    ensures DropDotSlash(Joined(ps)) == Joined(WithoutDots(ps))
    decreases |ps|
  {
    var s := Joined(ps);
    if |ps| == 1 {
      assert |s| >= 2 ==> s[1] in ps[0];
    } else if ps[0] == "." {
      assert s == "./" + Joined(ps[1..]);
      assert s[2..] == Joined(ps[1..]);
      DroppedIsWithoutDots(ps[1..]);
    } else {
      assert s == ps[0] + "/" + Joined(ps[1..]);
      assert |ps[0]| >= 2 ==> s[1] == ps[0][1] && ps[0][1] in ps[0];
      if |ps[0]| == 1 {
        assert s[0] == ps[0][0] && ps[0] == [ps[0][0]];
      }
    }
  }

  /** The normalised target is the pieces that are left, joined with single slashes. */
  lemma NormalizedIsJoined(raw: string)
    ensures Normalized(raw) == Joined(Pieces(raw))
  {
    var ps := Split(Strip(raw));
    CollapsedIsSqueezed(Strip(raw));
    SplitIsSlashFree(Strip(raw));
    if |ps| > 1 {
      InnerIsSlashFree(ps[1..]);
    }
    DroppedIsWithoutDots(Squeezed(ps));
  }

  lemma {:induction false} SplitPlain(s: string)
    requires '/' !in s && '\\' !in s
    ensures Split(s) == [s]
    decreases |s|
  {
    if s != "" {
      assert s[0] in s && forall c :: c in s[1..] ==> c in s;
      SplitPlain(s[1..]);
      assert [s[0]] + s[1..] == s;
    }
  }

  lemma {:induction false} SplitBehind(s: string, t: string)
    requires '/' !in s && '\\' !in s
    ensures Split(s + "/" + t) == [s] + Split(t)
    decreases |s|
  {
    var u := s + "/" + t;
    if s == "" {
      assert u[1..] == t;
    } else {
      assert s[0] in s && forall c :: c in s[1..] ==> c in s;
      SplitBehind(s[1..], t);
      assert u[0] == s[0] && u[1..] == s[1..] + "/" + t;
      assert [s[0]] + s[1..] == s;
    }
  }

  /** Joining pieces and splitting again gives back the pieces. */
  lemma {:induction false} SplitUndoesJoined(ps: seq<string>)
    requires ps != [] && SlashFree(ps)
    ensures Split(Joined(ps)) == ps
    decreases |ps|
  {
    if |ps| == 1 {
      SplitPlain(ps[0]);
    } else {
      SplitUndoesJoined(ps[1..]);
      SplitBehind(ps[0], Joined(ps[1..]));
    }
  }

  /** A target is read off its pieces: the normalised text splits into exactly those that are left. */
  lemma PiecesOfNormalized(raw: string)
    ensures Split(Normalized(raw)) == Pieces(raw)
  {
    NormalizedIsJoined(raw);
    PiecesAreSlashFree(raw);
    SplitUndoesJoined(Pieces(raw));
  }

  /** Two targets are normalised to the same text exactly if the same pieces are left of both. */
  lemma SameTargetIff(a: string, b: string)
    ensures Normalized(a) == Normalized(b) <==> Pieces(a) == Pieces(b)
  {
    NormalizedIsJoined(a);
    NormalizedIsJoined(b);
    PiecesOfNormalized(a);
    PiecesOfNormalized(b);
  }

  // ---------------------------------------------------------------------------------------
  // What the normalisation does not see
  // ---------------------------------------------------------------------------------------

  /** A target in normal form, without white space at its ends, is left as it is. */
  lemma CanonicalStays(raw: string)
    requires Canonical(raw) && Strip(raw) == raw
    ensures Normalized(raw) == raw
  {
    assert Slashes(raw) == raw by {
      assert forall i :: 0 <= i < |raw| ==> raw[i] in raw;
    }
    CollapseOfSingle(raw);
  }

  lemma {:induction false} SegmentsBehind(s: string, t: string, name: string)
    ensures Segments(s + "/" + t, name) == Segments(s, name) + Segments(t, "")
    decreases |s|
  {
    var u := s + "/" + t;
    if s == "" {
      assert u[1..] == t;
    } else {
      assert u[0] == s[0] && u[1..] == s[1..] + "/" + t;
      SegmentsBehind(s[1..], t, if s[0] == '/' then "" else name + [s[0]]);
    }
  }

  /** A `.` in the middle of a path leads nowhere, but stays: the same path spelt without it is another target. */
  lemma InnerDotStays(x: string, y: string)
    requires Canonical(x + "/./" + y) && Strip(x + "/./" + y) == x + "/./" + y
    requires Canonical(x + "/" + y) && Strip(x + "/" + y) == x + "/" + y
    ensures Segments(x + "/./" + y, "") == Segments(x + "/" + y, "")
    ensures Normalized(x + "/./" + y) != Normalized(x + "/" + y)
  {
    CanonicalStays(x + "/./" + y);
    CanonicalStays(x + "/" + y);
    assert x + "/./" + y == x + "/" + ("." + "/" + y);
    SegmentsBehind(x, "." + "/" + y, "");
    SegmentsBehind(x, y, "");
    DotLeadsNowhere(y);
  }

  lemma DotLeadsNowhere(y: string)
    ensures Segments("." + "/" + y, "") == Segments(y, "")
  {
    SegmentsBehind(".", y, "");
    assert Segments(".", "") == Segments("", ".") == [];
  }
}
