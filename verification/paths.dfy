/**
 * `joinpath` of base.c: `base + "/" + p`, written into one of two static
 * buffers of `MAX_PATHNAME` characters that alternate from call to call.
 * While `p` is copied, a `.` that directly follows a `.` in `p` is dropped,
 * so every run of dots becomes a single dot and no `..` survives.
 */
module Paths {
  import opened Common

  /** `MAX_PATHNAME` (moonbase.h). */
  const MaxPathname: nat := 256

  /** The reference meaning of the copy loop: `p` with each `.` that follows a `.` left out. */
  function Collapse(p: string): (c: string)
    ensures |c| <= |p|
  {
    if |p| == 0 then []
    else if |p| >= 2 && p[|p| - 1] == '.' && p[|p| - 2] == '.' then Collapse(p[..|p| - 1])
    else Collapse(p[..|p| - 1]) + [p[|p| - 1]]
  }

  /** A `..` starts at position `i`. */
  predicate DoubleDotAt(s: string, i: int)
  {
    0 <= i < |s| - 1 && s[i] == '.' && s[i + 1] == '.'
  }

  /** No two adjacent dots. */
  predicate NoDoubleDot(s: string)
  {
    forall i :: 0 <= i < |s| ==> !DoubleDotAt(s, i)
  }

  /** The characters of `s` other than `.`, in order. */
  function Undotted(s: string): (u: string)
    ensures |u| <= |s|
    ensures '.' !in u
  {
    if |s| == 0 then []
    else Undotted(s[..|s| - 1]) + (if s[|s| - 1] == '.' then [] else [s[|s| - 1]])
  }

  /** The two static buffers and the call counter of `joinpath`. */
  datatype Statics = Statics(index: nat, bufs: seq<seq<char>>)

  predicate WellFormed(st: Statics)
  {
    |st.bufs| == 2 && |st.bufs[0]| == MaxPathname && |st.bufs[1]| == MaxPathname
  }

  /** The last character of the collapsed text is the last character of the input. */
  lemma {:induction false} CollapseLast(p: string)
    requires |p| > 0
    ensures |Collapse(p)| > 0 && Collapse(p)[|Collapse(p)| - 1] == p[|p| - 1]
    decreases |p|
  {
    var init := p[..|p| - 1];
    if |p| >= 2 && p[|p| - 1] == '.' && p[|p| - 2] == '.' {
      CollapseLast(init);
    }
  }

  /** The collapsed text never holds `..`. */
  lemma {:induction false} CollapseNoDoubleDot(p: string)
    ensures NoDoubleDot(Collapse(p))
    decreases |p|
  {
    if |p| > 0 {
      var init := p[..|p| - 1];
      CollapseNoDoubleDot(init);
      if !(|p| >= 2 && p[|p| - 1] == '.' && p[|p| - 2] == '.') {
        var c := Collapse(init);
        var r := c + [p[|p| - 1]];
        assert Collapse(p) == r;
        if |p| >= 2 {
          CollapseLast(init);
          assert c[|c| - 1] == p[|p| - 2];
        }
        forall i | 0 <= i < |r|
          ensures !DoubleDotAt(r, i)
        {
          if i < |r| - 2 {
            assert r[i] == c[i] && r[i + 1] == c[i + 1];
            assert !DoubleDotAt(c, i);
          }
        }
      }
    }
  }

  /** A text without `..` is left as it is. */
  lemma {:induction false} CollapseFixesNoDoubleDot(p: string)
    requires NoDoubleDot(p)
    ensures Collapse(p) == p
    decreases |p|
  {
    if |p| > 0 {
      var init := p[..|p| - 1];
      NoDoubleDotInit(p);
      CollapseFixesNoDoubleDot(init);
      assert Collapse(p) == Collapse(init) + [p[|p| - 1]] by {
        if |p| >= 2 {
          assert !DoubleDotAt(p, |p| - 2);
        }
      }
      assert init + [p[|p| - 1]] == p;
    }
  }

  lemma NoDoubleDotInit(p: string)
    requires |p| > 0 && NoDoubleDot(p)
    ensures NoDoubleDot(p[..|p| - 1])
  {
    var init := p[..|p| - 1];
    forall i | 0 <= i < |init|
      ensures !DoubleDotAt(init, i)
    {
      if i < |init| - 1 {
        assert init[i] == p[i] && init[i + 1] == p[i + 1];
        assert !DoubleDotAt(p, i);
      }
    }
  }

  /** Collapsing changes the text exactly when it holds `..`. */
  lemma CollapseFixedPoint(p: string)
    ensures Collapse(p) == p <==> NoDoubleDot(p)
  {
    CollapseNoDoubleDot(p);
    if NoDoubleDot(p) {
      CollapseFixesNoDoubleDot(p);
    }
  }

  /** Collapsing twice is collapsing once. */
  lemma CollapseIdempotent(p: string)
    ensures Collapse(Collapse(p)) == Collapse(p)
  {
    CollapseNoDoubleDot(p);
    CollapseFixesNoDoubleDot(Collapse(p));
  }

  /** Only dots are dropped: the other characters all survive, in order. */
  lemma {:induction false} CollapseKeepsOthers(p: string)
    ensures Undotted(Collapse(p)) == Undotted(p)
    decreases |p|
  {
    if |p| > 0 {
      var init := p[..|p| - 1];
      CollapseKeepsOthers(init);
      assert Undotted(p) == Undotted(init) + (if p[|p| - 1] == '.' then [] else [p[|p| - 1]]);
      if !(|p| >= 2 && p[|p| - 1] == '.' && p[|p| - 2] == '.') {
        var c := Collapse(init);
        assert Collapse(p) == c + [p[|p| - 1]];
        assert (c + [p[|p| - 1]])[..|c|] == c;
      }
    }
  }

  /** A dot survives wherever `p` has one: the collapsed text has a dot exactly when `p` does. */
  lemma {:induction false} CollapseKeepsSomeDot(p: string)
    ensures '.' in Collapse(p) <==> '.' in p
    decreases |p|
  {
    if |p| > 0 {
      var init := p[..|p| - 1];
      CollapseKeepsSomeDot(init);
      assert p == init + [p[|p| - 1]];
      if |p| >= 2 && p[|p| - 1] == '.' && p[|p| - 2] == '.' {
        assert init[|init| - 1] == '.';
      }
    }
  }

  /** A character other than `.` separates: what lies before it and what lies after it collapse independently. */
  lemma {:induction false} CollapseAroundNonDot(a: string, c: char, b: string)
    requires c != '.'
    ensures Collapse(a + [c] + b) == Collapse(a) + [c] + Collapse(b)
    decreases |b|
  {
    var s := a + [c] + b;
    if |b| == 0 {
      assert s == a + [c];
      assert s[..|s| - 1] == a;
    } else {
      var b' := b[..|b| - 1];
      var d := b[|b| - 1];
      assert s[..|s| - 1] == a + [c] + b';
      assert s[|s| - 1] == d;
      CollapseAroundNonDot(a, c, b');
      if |b| == 1 {
        assert s[|s| - 2] == c;
        assert b' == [];
        assert Collapse(b) == [d];
      } else {
        assert s[|s| - 2] == b[|b| - 2];
      }
    }
  }

  /** A run of one or more dots collapses to a single dot. */
  lemma {:induction false} CollapseDotRun(n: nat)
    requires n >= 1
    ensures Collapse(seq(n, _ => '.')) == "."
    decreases n
  {
    var r: string := seq(n, _ => '.');
    assert r[..n - 1] == seq(n - 1, _ => '.');
    if n == 1 {
      assert Collapse(r[..n - 1]) == [];
    } else {
      CollapseDotRun(n - 1);
    }
  }

  /** Traversal components are neutralised: "../../etc" becomes "././etc", "a...b" becomes "a.b". */
  lemma CollapseExamples()
    ensures Collapse("../../etc") == "././etc"
    ensures Collapse("a...b") == "a.b"
    ensures Collapse("") == ""
  {
    assert "../../etc"[..8] == "../../et";
    assert "../../etc"[..8][..7] == "../../e";
    assert "../../etc"[..8][..7][..6] == "../../";
    assert "../../etc"[..8][..7][..6][..5] == "../..";
    assert "../../etc"[..8][..7][..6][..5][..4] == "../.";
    assert "../../etc"[..8][..7][..6][..5][..4][..3] == "../";
    assert "../../etc"[..8][..7][..6][..5][..4][..3][..2] == "..";
    assert "../../etc"[..8][..7][..6][..5][..4][..3][..2][..1] == ".";
    assert "a...b"[..4] == "a...";
    assert "a...b"[..4][..3] == "a..";
    assert "a...b"[..4][..3][..2] == "a.";
    assert "a...b"[..4][..3][..2][..1] == "a";
  }

  /** The collapsed text of a prefix is never longer than that of the whole. */
  lemma {:induction false} CollapsePrefixLength(p: string, i: nat)
    requires i <= |p|
    ensures |Collapse(p[..i])| <= |Collapse(p)|
    decreases |p| - i
  {
    if i < |p| {
      CollapsePrefixLength(p, i + 1);
      var q := p[..i + 1];
      assert q[..|q| - 1] == p[..i];
    } else {
      assert p[..i] == p;
    }
  }

  /** One more character of `p` either is dropped or extends the collapsed prefix by itself. */
  lemma CollapseStep(p: string, i: nat)
    requires i < |p|
    ensures Collapse(p[..i + 1]) ==
      if i > 0 && p[i - 1] == '.' && p[i] == '.' then Collapse(p[..i]) else Collapse(p[..i]) + [p[i]]
    ensures |Collapse(p[..i + 1])| <= |Collapse(p)|
  {
    CollapsePrefixLength(p, i + 1);
    var q := p[..i + 1];
    assert q[..|q| - 1] == p[..i];
  }

  /**
   * `joinpath`: the buffer `index & 1` gets `base`, a `/`, the collapsed
   * `p` and a NUL, and the counter moves on.  The caller must keep the
   * result within `MAX_PATHNAME`, which the source does not check.
   */
  method JoinPath(st: Statics, base: string, p: string) returns (st': Statics, slot: nat)
    requires WellFormed(st) && IsCString(base) && IsCString(p)
    requires |base| + 1 + |Collapse(p)| < MaxPathname
    ensures WellFormed(st') && st'.index == st.index + 1
    ensures slot == st.index % 2 && slot < 2
    ensures st'.bufs[1 - slot] == st.bufs[1 - slot]
    ensures st'.bufs[slot][..|base| + 1 + |Collapse(p)|] == base + "/" + Collapse(p)
    ensures st'.bufs[slot][|base| + 1 + |Collapse(p)|] == '\0'
    ensures st'.bufs[slot][|base| + 2 + |Collapse(p)|..] == st.bufs[slot][|base| + 2 + |Collapse(p)|..]
  {
    slot := st.index % 2;
    var path := st.bufs[slot];
    CollapsePrefixLength(p, 0);
    var head := base + "/";
    path := head + ['\0'] + path[|head| + 1..];
    var text := p + ['\0'];
    var s := |head|;
    var last := '\0';
    var i := 0;
    while text[i] != '\0'
      invariant 0 <= i <= |p|
      invariant |path| == MaxPathname
      invariant |Collapse(p[..i])| <= |Collapse(p)|
      invariant s == |head| + |Collapse(p[..i])|
      invariant path[..s] == head + Collapse(p[..i])
      invariant last == if i == 0 then '\0' else p[i - 1]
      invariant path[|head| + 1 + |Collapse(p)|..] == st.bufs[slot][|head| + 1 + |Collapse(p)|..]
      decreases |p| - i
    {
      CollapseStep(p, i);
      ghost var done, next := Collapse(p[..i]), Collapse(p[..i + 1]);
      if last == '.' && text[i] == '.' {
        assert next == done;
        i := i + 1;
        continue;
      }
      assert next == done + [p[i]];
      ghost var before := path;
      path := path[s := text[i]];
      assert path[..s + 1] == before[..s] + [p[i]] == head + done + [p[i]];
      assert path[..s + 1] == head + next;
      last := text[i];
      s := s + 1;
      i := i + 1;
    }
    assert p[..i] == p;
    path := path[s := '\0'];
    st' := Statics(st.index + 1, st.bufs[slot := path]);
  }

  /**
   * Two consecutive calls write different buffers, so the first result is
   * still intact when the second one is returned.
   */
  method JoinTwice(st: Statics, base1: string, p1: string, base2: string, p2: string)
    returns (st': Statics, first: nat, second: nat)
    requires WellFormed(st) && IsCString(base1) && IsCString(p1) && IsCString(base2) && IsCString(p2)
    requires |base1| + 1 + |Collapse(p1)| < MaxPathname && |base2| + 1 + |Collapse(p2)| < MaxPathname
    ensures WellFormed(st') && first < 2 && second < 2 && first != second
    ensures st'.bufs[first][..|base1| + 2 + |Collapse(p1)|] == base1 + "/" + Collapse(p1) + "\0"
    ensures st'.bufs[second][..|base2| + 2 + |Collapse(p2)|] == base2 + "/" + Collapse(p2) + "\0"
  {
    var mid;
    mid, first := JoinPath(st, base1, p1);
    st', second := JoinPath(mid, base2, p2);
    var n1 := |base1| + 1 + |Collapse(p1)|;
    assert mid.bufs[first][..n1 + 1] == mid.bufs[first][..n1] + [mid.bufs[first][n1]];
    var n2 := |base2| + 1 + |Collapse(p2)|;
    assert st'.bufs[second][..n2 + 1] == st'.bufs[second][..n2] + [st'.bufs[second][n2]];
  }
}
