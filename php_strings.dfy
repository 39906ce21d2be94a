/** The PHP string functions the audit presentation code relies on. */
module PhpStrings {

  /** `Str::startsWith($s, $p)` for one prefix. */
  predicate StartsWith(s: string, p: string) {
    |p| <= |s| && s[..|p|] == p
  }

  lemma StartsWithFirst(s: string, p: string)
    requires p != "" && StartsWith(s, p)
    ensures s != "" && s[0] == p[0]
  {
    assert s[..|p|][0] == s[0];
  }

  /** `substr($s, $start)` for a start at or past the end: PHP 8 returns "". */
  function Substr(s: string, start: nat): string {
    if start <= |s| then s[start..] else ""
  }

  /** `substr($s, 0, $n)`: at most the first `n` characters. */
  function Prefix(s: string, n: nat): string {
    if n <= |s| then s[..n] else s
  }

  /** Cutting a key `p + a` at `|p|` recovers both halves: `substr` from `|p|`
      gives `a` back and the first `|p|` characters give `p` back. */
  lemma SubstrAfterPrefix(p: string, a: string)
    ensures Substr(p + a, |p|) == a && Prefix(p + a, |p|) == p
  {
    assert (p + a)[|p|..] == a;
    assert (p + a)[..|p|] == p;
  }

  predicate CommaFree(w: string) {
    ',' !in w
  }

  /** The pieces of `s` between its commas, empty ones included (`explode(',', $s)`).
      There is always at least one piece, and no piece contains a comma. */
  function Explode(s: string): (r: seq<string>)
    ensures |r| >= 1
    ensures forall i | 0 <= i < |r| :: CommaFree(r[i])
  {
    if s == [] then [""]
    else
      var rest := Explode(s[1..]);
      if s[0] == ',' then [""] + rest
      else [[s[0]] + rest[0]] + rest[1..]
  }

  /** `implode(',', $ws)`. */
  function Implode(ws: seq<string>): string {
    if ws == [] then ""
    else if |ws| == 1 then ws[0]
    else ws[0] + "," + Implode(ws[1..])
  }

  /** The pieces that are not empty, in order. */
  function NonEmpty(ws: seq<string>): (r: seq<string>)
    ensures forall i | 0 <= i < |r| :: r[i] != "" && r[i] in ws
    ensures forall w :: w in r <==> w in ws && w != ""
  {
    if ws == [] then []
    else if ws[0] == "" then NonEmpty(ws[1..])
    else [ws[0]] + NonEmpty(ws[1..])
  }

  /** `preg_split('/,/', $s, -1, PREG_SPLIT_NO_EMPTY)`: the non-empty pieces of `s`
      between its commas, in order. */
  function PregSplitNoEmpty(s: string): (r: seq<string>)
    ensures forall i | 0 <= i < |r| :: r[i] != "" && CommaFree(r[i])
    ensures forall w :: w in r <==> w != "" && w in Explode(s)
  {
    NonEmpty(Explode(s))
  }

  /** Dropping the empty pieces keeps the order: the non-empty pieces of `a + b`
      are those of `a` followed by those of `b`. */
  lemma {:induction false} NonEmptyConcat(a: seq<string>, b: seq<string>)
    ensures NonEmpty(a + b) == NonEmpty(a) + NonEmpty(b)
  {
    if a != [] {
      assert (a + b)[1..] == a[1..] + b;
      NonEmptyConcat(a[1..], b);
    } else {
      assert a + b == b;
    }
  }

  /** Exploding loses nothing: joining the pieces gives the string back. */
  lemma {:induction false} ImplodeExplode(s: string)
    ensures Implode(Explode(s)) == s
  {
    if s != [] {
      var rest := Explode(s[1..]);
      ImplodeExplode(s[1..]);
      if s[0] == ',' {
        assert Implode([""] + rest) == "" + "," + Implode(rest);
        assert s == [s[0]] + s[1..];
      } else {
        assert s == [s[0]] + s[1..];
        if |rest| == 1 {
          assert Implode([[s[0]] + rest[0]]) == [s[0]] + rest[0];
        } else {
          assert ([[s[0]] + rest[0]] + rest[1..])[1..] == rest[1..];
          assert Implode(rest) == rest[0] + "," + Implode(rest[1..]);
        }
      }
    }
  }

  /** A string without commas is a single piece. */
  lemma {:induction false} ExplodeCommaFree(w: string)
    requires CommaFree(w)
    ensures Explode(w) == [w]
  {
    if w != [] {
      assert w == [w[0]] + w[1..];
      ExplodeCommaFree(w[1..]);
    }
  }

  /** Exploding `w + "," + t` for a comma-free `w` gives `w` followed by the pieces of `t`. */
  lemma {:induction false} ExplodeAfterWord(w: string, t: string)
    requires CommaFree(w)
    ensures Explode(w + "," + t) == [w] + Explode(t)
  {
    if w == [] {
      assert ("" + "," + t)[1..] == t;
    } else {
      assert (w + "," + t)[1..] == w[1..] + "," + t;
      assert (w + "," + t)[0] == w[0];
      ExplodeAfterWord(w[1..], t);
      assert [w[0]] + w[1..] == w;
    }
  }

  /** Joining comma-free words and exploding gives the words back. */
  lemma {:induction false} ExplodeImplode(ws: seq<string>)
    requires |ws| >= 1
    requires forall i | 0 <= i < |ws| :: CommaFree(ws[i])
    ensures Explode(Implode(ws)) == ws
  {
    if |ws| == 1 {
      ExplodeCommaFree(ws[0]);
    } else {
      ExplodeImplode(ws[1..]);
      ExplodeAfterWord(ws[0], Implode(ws[1..]));
      assert [ws[0]] + ws[1..] == ws;
    }
  }

  lemma {:induction false} NonEmptyOfNonEmpty(ws: seq<string>)
    requires forall i | 0 <= i < |ws| :: ws[i] != ""
    ensures NonEmpty(ws) == ws
  {
    if ws != [] {
      NonEmptyOfNonEmpty(ws[1..]);
      assert [ws[0]] + ws[1..] == ws;
    }
  }

  /** Splitting a comma-join of non-empty, comma-free words yields exactly those
      words, in order (the empty list joins to "" and splits back to none). */
  lemma PregSplitOfImplode(ws: seq<string>)
    requires forall i | 0 <= i < |ws| :: ws[i] != "" && CommaFree(ws[i])
    ensures PregSplitNoEmpty(Implode(ws)) == ws
  {
    if ws == [] {
      assert Explode("") == [""];
    } else {
      ExplodeImplode(ws);
      NonEmptyOfNonEmpty(ws);
    }
  }
}
