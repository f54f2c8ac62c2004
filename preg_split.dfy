/**
  PHP's `preg_split("/\s+/", $subject)` with no limit and no flags: the subject is
  cut at every maximal run of white space and every piece is kept, empty ones
  included. A leading run therefore yields an empty first piece and a trailing run
  an empty last piece; the empty subject yields one empty piece.
 */
module PregSplit {

  /** The characters `\s` matches in PCRE 8.34 and later and in PCRE2 with their
      default ("C" locale) tables: space, tab, line feed, vertical tab, form feed and
      carriage return. */
  predicate IsSpace(c: char)
    ensures IsSpace(c) <==> c == ' ' || '\t' <= c <= '\r'
  {
    c == ' ' || c == '\t' || c == '\n' || c == '\U{B}' || c == '\U{C}' || c == '\r'
  }

  /** A non-empty run of white space. */
  predicate IsRun(w: string) {
    w != [] && forall i :: 0 <= i < |w| ==> IsSpace(w[i])
  }

  predicate NoSpace(w: string) {
    forall i :: 0 <= i < |w| ==> !IsSpace(w[i])
  }

  /** The shape of every list of pieces the split can produce: at least one piece,
      no piece holds white space, and only the first and the last may be empty. */
  predicate Fields(ps: seq<string>) {
    && |ps| >= 1
    && (forall i :: 0 <= i < |ps| ==> NoSpace(ps[i]))
    && (forall i :: 0 < i < |ps| - 1 ==> ps[i] != "")
  }

  /** The pieces between the maximal runs of white space of `s`, in order. A white-space
      character ends the current piece unless another white-space character follows it. */
  function Split(s: string): (r: seq<string>)
    ensures |r| >= 1
    decreases |s|
  {
    if s == [] then [""]
    else
      var q := Split(s[1..]);
      if !IsSpace(s[0]) then [[s[0]] + q[0]] + q[1..]
      else if |s| > 1 && IsSpace(s[1]) then q
      else [""] + q
  }

  /** How many maximal runs of white space `s` holds (each counted at its last character). */
  function Runs(s: string): nat
    decreases |s|
  {
    if s == [] then 0
    else (if IsSpace(s[0]) && !(|s| > 1 && IsSpace(s[1])) then 1 else 0) + Runs(s[1..])
  }

  /** The pieces glued back together with one space between neighbours. */
  function JoinFields(ps: seq<string>): string {
    if |ps| == 0 then ""
    else if |ps| == 1 then ps[0]
    else ps[0] + " " + JoinFields(ps[1..])
  }

  /** The subject with every maximal run of white space replaced by one space. */
  function Collapse(s: string): string
    decreases |s|
  {
    if s == [] then ""
    else if !IsSpace(s[0]) then [s[0]] + Collapse(s[1..])
    else if |s| > 1 && IsSpace(s[1]) then Collapse(s[1..])
    else " " + Collapse(s[1..])
  }

  /** The pieces of a split are well formed, and the first one is empty exactly when
      the subject is empty or starts with white space. */
  lemma {:induction false} SplitFields(s: string)
    ensures Fields(Split(s))
    ensures Split(s)[0] == "" <==> s == [] || IsSpace(s[0])
    decreases |s|
  {
    if s != [] {
      var t := s[1..];
      SplitFields(t);
      var q := Split(t);
      if !IsSpace(s[0]) {
        var r := [[s[0]] + q[0]] + q[1..];
        assert forall i :: 0 < i < |r| ==> r[i] == q[i];
        assert NoSpace(r[0]) by {
          assert forall k :: 0 < k < |r[0]| ==> r[0][k] == q[0][k - 1];
        }
      } else if !(|s| > 1 && IsSpace(s[1])) {
        var r := [""] + q;
        assert forall i :: 0 < i < |r| ==> r[i] == q[i - 1];
      }
    }
  }

  /** A subject splits into a single piece exactly when it holds no white space. */
  lemma {:induction false} SplitSingle(s: string)
    ensures |Split(s)| == 1 <==> NoSpace(s)
    decreases |s|
  {
    if s != [] {
      var t := s[1..];
      SplitSingle(t);
      assert NoSpace(s) <==> !IsSpace(s[0]) && NoSpace(t) by {
        assert forall k :: 0 < k < |s| ==> s[k] == t[k - 1];
      }
    }
  }

  /** The last piece of a split is empty exactly when the subject is empty or ends
      with white space. */
  lemma {:induction false} SplitLastPiece(s: string)
    ensures Split(s)[|Split(s)| - 1] == "" <==> s == [] || IsSpace(s[|s| - 1])
    decreases |s|
  {
    if s != [] {
      var t := s[1..];
      var q := Split(t);
      SplitLastPiece(t);
      var endsInSpace := IsSpace(s[|s| - 1]);
      if t == [] {
        assert endsInSpace == IsSpace(s[0]);
      } else {
        assert t[|t| - 1] == s[|s| - 1];
        if !IsSpace(s[0]) {
          var r := [[s[0]] + q[0]] + q[1..];
          assert Split(s) == r;
          if |q| == 1 {
            SplitSingle(t);
            assert !endsInSpace;
          } else {
            assert r[|r| - 1] == q[|q| - 1];
          }
        } else if !(|s| > 1 && IsSpace(s[1])) {
          var r := [""] + q;
          assert Split(s) == r && r[|r| - 1] == q[|q| - 1];
        }
      }
    }
  }

  /** Splitting a space-free prefix glued to a rest only extends the rest's first piece. */
  lemma {:induction false} SplitPrefix(p: string, t: string)
    requires NoSpace(p)
    ensures Split(p + t) == [p + Split(t)[0]] + Split(t)[1..]
    decreases |p|
  {
    var st := Split(t);
    if p == [] {
      assert p + t == t && p + st[0] == st[0];
    } else {
      SplitPrefix(p[1..], t);
      assert (p + t)[1..] == p[1..] + t;
      assert [p[0]] + (p[1..] + st[0]) == p + st[0];
    }
  }

  /** A split has one piece more than the subject has runs of white space. */
  lemma {:induction false} SplitCount(s: string)
    ensures |Split(s)| == Runs(s) + 1
    decreases |s|
  {
    if s != [] {
      SplitCount(s[1..]);
    }
  }

  /** A run of white space before a rest that does not start with white space
      contributes exactly one empty piece, however long the run and whatever it holds. */
  lemma {:induction false} SplitRun(w: string, t: string)
    requires IsRun(w)
    requires t == [] || !IsSpace(t[0])
    ensures Split(w + t) == [""] + Split(t)
    decreases |w|
  {
    var s := w + t;
    assert s[1..] == w[1..] + t;
    if |w| > 1 {
      assert s[1] == w[1];
      SplitRun(w[1..], t);
    } else {
      assert w[1..] + t == t;
    }
  }

  /** A space-free piece, a run of white space and a rest not starting with white
      space: the piece comes first, then the pieces of the rest. */
  lemma {:induction false} SplitAcrossRun(a: string, w: string, t: string)
    requires NoSpace(a) && IsRun(w)
    requires t == [] || !IsSpace(t[0])
    ensures Split(a + w + t) == [a] + Split(t)
  {
    assert a + w + t == a + (w + t);
    SplitPrefix(a, w + t);
    SplitRun(w, t);
    assert a + "" == a;
  }

  /** Splitting undoes joining, for every list of pieces a split can produce. */
  lemma {:induction false} SplitJoin(ps: seq<string>)
    requires Fields(ps)
    ensures Split(JoinFields(ps)) == ps
    decreases |ps|
  {
    if |ps| == 1 {
      SplitPrefix(ps[0], "");
      assert ps[0] + "" == ps[0];
    } else {
      var rest := ps[1..];
      assert Fields(rest) by {
        forall i | 0 <= i < |rest| ensures NoSpace(rest[i]) { assert rest[i] == ps[i + 1]; }
        forall i | 0 < i < |rest| - 1 ensures rest[i] != "" { assert rest[i] == ps[i + 1]; }
      }
      var r := JoinFields(rest);
      assert r == [] || !IsSpace(r[0]) by {
        if |rest| > 1 {
          assert ps[1] != "" && NoSpace(ps[1]);
          assert r == ps[1] + " " + JoinFields(rest[1..]);
          assert r[0] == ps[1][0];
        }
      }
      SplitJoin(rest);
      var sr := [' '] + r;
      assert sr[1..] == r;
      assert Split(sr) == [""] + rest;
      assert JoinFields(ps) == ps[0] + sr;
      SplitPrefix(ps[0], sr);
      assert ps[0] + "" == ps[0];
      assert [ps[0]] + rest == ps;
    }
  }

  /** Gluing a character to the first piece glues it to the joined string. */
  lemma {:induction false} JoinConsFirst(c: char, q: seq<string>)
    requires |q| >= 1
    ensures JoinFields([[c] + q[0]] + q[1..]) == [c] + JoinFields(q)
  {
    var q' := [[c] + q[0]] + q[1..];
    assert |q'| == |q| && q'[0] == [c] + q[0] && q'[1..] == q[1..];
    if |q| > 1 {
      var r := JoinFields(q[1..]);
      assert ([c] + q[0]) + " " + r == [c] + (q[0] + " " + r);
    }
  }

  /** Joining the pieces of a split gives the subject with its white-space runs collapsed. */
  lemma {:induction false} JoinSplit(s: string)
    ensures JoinFields(Split(s)) == Collapse(s)
    decreases |s|
  {
    if s != [] {
      var q := Split(s[1..]);
      JoinSplit(s[1..]);
      if !IsSpace(s[0]) {
        JoinConsFirst(s[0], q);
      } else if |s| > 1 && IsSpace(s[1]) {
      } else {
        assert ([""] + q)[1..] == q;
      }
    }
  }

  /** The length and kind of each white-space run do not change the split. */
  lemma {:induction false} SplitCollapse(s: string)
    ensures Split(Collapse(s)) == Split(s)
  {
    JoinSplit(s);
    SplitFields(s);
    SplitJoin(Split(s));
  }
}
