/** Case-folded comparison of file names (exfat_uniname_cmp of fs/exfat/exfat_nls.c). */
module Names {
  import opened Bytes
  import U = Unicode

  predicate Surrogate(u: u16) { 0xD800 <= u <= 0xDFFF }

  /** The up-case table has an entry for every code unit. */
  type Upcase = t: seq<u16> | |t| == 0x1_0000 witness seq(0x1_0000, _ => 0)

  function FoldUnit(table: Upcase, u: u16): u16 {
    if Surrogate(u) then u else table[u]
  }

  function Fold(table: Upcase, name: seq<u16>): (r: seq<u16>)
    ensures |r| == |name| && forall i :: 0 <= i < |name| ==> r[i] == FoldUnit(table, name[i])
  {
    seq(|name|, i requires 0 <= i < |name| => FoldUnit(table, name[i]))
  }

  /** Folding a text character by character: one of the basic plane by the table, any other not at all. */
  function FoldedText(table: Upcase, text: seq<U.Scalar>): seq<u16> {
    if text == [] then []
    else (if text[0] <= 0xFFFF then [table[text[0]]] else U.Units(text[0])) + FoldedText(table, text[1..])
  }

  lemma FoldJoin(table: Upcase, a: seq<u16>, b: seq<u16>)
    ensures Fold(table, a + b) == Fold(table, a) + Fold(table, b)
  {
    hide FoldUnit;
  }

  /** Folding the UTF-16 form of a text unit by unit folds its characters: no half of a surrogate pair is ever looked
      up in the table. */
  lemma {:induction false} FoldIsByCharacter(table: Upcase, text: seq<U.Scalar>)
    ensures Fold(table, U.AllUnits(text)) == FoldedText(table, text)
  {
    if text != [] {
      FoldIsByCharacter(table, text[1..]);
      FoldJoin(table, U.Units(text[0]), U.AllUnits(text[1..]));
      FoldOne(table, text[0]);
    }
  }

  lemma FoldOne(table: Upcase, v: U.Scalar)
    ensures Fold(table, U.Units(v)) == if v <= 0xFFFF then [table[v]] else U.Units(v)
  {
    var us := U.Units(v);
    if v > 0xFFFF {
      assert Surrogate(us[0]) && Surrogate(us[1]);
    }
  }

  /** Dictionary order: the first difference decides, and a proper prefix comes first. */
  predicate Before(a: seq<u16>, b: seq<u16>) {
    b != [] && (a == [] || a[0] < b[0] || (a[0] == b[0] && Before(a[1..], b[1..])))
  }

  lemma {:induction false} BeforeIrreflexive(a: seq<u16>)
    ensures !Before(a, a)
  {
    if a != [] {
      BeforeIrreflexive(a[1..]);
    }
  }

  lemma {:induction false} BeforeTransitive(a: seq<u16>, b: seq<u16>, c: seq<u16>)
    requires Before(a, b) && Before(b, c)
    ensures Before(a, c)
  {
    if a != [] && a[0] == b[0] == c[0] {
      BeforeTransitive(a[1..], b[1..], c[1..]);
    }
  }

  lemma {:induction false} BeforeTotal(a: seq<u16>, b: seq<u16>)
    ensures Before(a, b) || Before(b, a) || a == b
  {
    if a != [] && b != [] && a[0] == b[0] {
      BeforeTotal(a[1..], b[1..]);
      assert a == [a[0]] + a[1..] && b == [b[0]] + b[1..];
    }
  }

  /** After k equal units the order is that of the rest. */
  lemma {:induction false} BeforeDrop(a: seq<u16>, b: seq<u16>, k: nat)
    requires k <= |a| && k <= |b| && a[..k] == b[..k]
    ensures Before(a, b) <==> Before(a[k..], b[k..])
  {
    if k == 0 {
      assert a[0..] == a && b[0..] == b;
    } else {
      assert a[0] == a[..k][0] && b[0] == b[..k][0];
      assert a[1..][..k - 1] == a[..k][1..] && b[1..][..k - 1] == b[..k][1..];
      BeforeDrop(a[1..], b[1..], k - 1);
      assert a[1..][k - 1..] == a[k..] && b[1..][k - 1..] == b[k..];
    }
  }

  /** The sign of the result is the dictionary order of the folded names; zero means they are equal. */
  method Compare(table: Upcase, a: seq<u16>, b: seq<u16>) returns (r: int)
    ensures r == -1 || r == 0 || r == 1
    ensures r == 0 <==> Fold(table, a) == Fold(table, b)
    ensures r == -1 <==> Before(Fold(table, a), Fold(table, b))
    ensures r == 1 <==> Before(Fold(table, b), Fold(table, a))
  {
    ghost var fa, fb := Fold(table, a), Fold(table, b);
    BeforeIrreflexive(fa);
    Exclusive(fa, fb);
    var min := if |a| < |b| then |a| else |b|;
    for i := 0 to min
      invariant fa[..i] == fb[..i]
    {
      var x, y := FoldUnit(table, a[i]), FoldUnit(table, b[i]);
      BeforeDrop(fa, fb, i);
      BeforeDrop(fb, fa, i);
      if x < y {
        return -1;
      }
      if x > y {
        return 1;
      }
    }
    BeforeDrop(fa, fb, min);
    BeforeDrop(fb, fa, min);
    if |a| < |b| {
      return -1;
    }
    if |a| > |b| {
      return 1;
    }
    assert fa == fa[..min] && fb == fb[..min];
    return 0;
  }

  lemma Exclusive(a: seq<u16>, b: seq<u16>)
    ensures !(Before(a, b) && Before(b, a))
  {
    if Before(a, b) && Before(b, a) {
      BeforeTransitive(a, b, a);
      BeforeIrreflexive(a);
    }
  }
}
