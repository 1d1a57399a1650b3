/**
 * Version strings as `versiondb.rs` reads them: `cmp_versions` ranks two
 * versions by their dot-separated components that parse as `u32`, and
 * `match_first_version` compares a query with a registered version
 * component by component.
 */
module Versions {
  import opened Results
  import opened Text

  datatype Ordering = Less | Equal | Greater {
    /** `Ordering::reverse`. */
    function Reverse(): Ordering {
      match this
      case Less => Greater
      case Equal => Equal
      case Greater => Less
    }
  }

  function CompareNat(a: nat, b: nat): Ordering {
    if a < b then Less else if a > b then Greater else Equal
  }

  /** `filter_map(|x| x.parse().ok())`: components that fail to parse are dropped. */
  function ParsedComponents(parts: seq<string>): (ns: seq<nat>)
    ensures |ns| <= |parts|
    ensures forall i :: 0 <= i < |ns| ==> ns[i] < U32_LIMIT
  {
    if |parts| == 0 then []
    else
      var rest := ParsedComponents(parts[1..]);
      match ParseU32(parts[0])
      case Some(n) => [n] + rest
      case None => rest
  }

  /** The numeric components of a version string. */
  function NumericParts(v: string): seq<nat> {
    ParsedComponents(Split(v, '.'))
  }

  /**
   * The loop of `cmp_versions`: the first differing component decides;
   * with an equal common prefix the longer sequence is greater.
   */
  function LexCompare(a: seq<nat>, b: seq<nat>): (o: Ordering)
    ensures o == Equal <==> a == b
    decreases |a|
  {
    if |a| == 0 || |b| == 0 then CompareNat(|a|, |b|)
    else if a[0] < b[0] then Less
    else if a[0] > b[0] then Greater
    else
      var o := LexCompare(a[1..], b[1..]);
      assert a == [a[0]] + a[1..] && b == [b[0]] + b[1..];
      o
  }

  /**
   * `cmp_versions(a, b)`: equal exactly when the numeric components agree,
   * and otherwise ordered by the written-out lexicographic order on them.
   */
  function CmpVersions(a: string, b: string): (o: Ordering)
    ensures o == Equal <==> NumericParts(a) == NumericParts(b)
    ensures o == Less <==> LexLess(NumericParts(a), NumericParts(b))
    ensures o == Greater <==> LexLess(NumericParts(b), NumericParts(a))
  {
    var x, y := NumericParts(a), NumericParts(b);
    LexCompareIsLexLess(x, y);
    LexCompareIsLexLess(y, x);
    LexCompareFlip(x, y);
    LexCompare(x, y)
  }

  /** Lexicographic "less than", written out: a strictly smaller component after a common prefix, or a proper prefix. */
  ghost predicate LexLess(a: seq<nat>, b: seq<nat>) {
    || (exists i :: 0 <= i < |a| && i < |b| && a[..i] == b[..i] && a[i] < b[i])
    || (|a| < |b| && a == b[..|a|])
  }

  /** `LexCompare` says `Less` exactly when the written-out order does. */
  lemma {:induction false} LexCompareIsLexLess(a: seq<nat>, b: seq<nat>)
    ensures LexCompare(a, b) == Less <==> LexLess(a, b)
    decreases |a|
  {
    if |a| == 0 || |b| == 0 {
      if |a| > 0 {
        assert !LexLess(a, b);
      }
    } else if a[0] < b[0] {
      assert a[..0] == b[..0];
    } else if a[0] > b[0] {
      HeadDecides(a, b);
      assert a[..|a|] == a;
    } else {
      LexCompareIsLexLess(a[1..], b[1..]);
      if LexLess(a, b) {
        if |a| < |b| && a == b[..|a|] {
          assert a[1..] == b[1..][..|a[1..]|];
        } else {
          var i :| 0 <= i < |a| && i < |b| && a[..i] == b[..i] && a[i] < b[i];
          assert i > 0;
          assert a[1..][..i - 1] == a[..i][1..] == b[..i][1..] == b[1..][..i - 1];
          assert a[1..][i - 1] == a[i];
        }
      }
      if LexLess(a[1..], b[1..]) {
        if |a[1..]| < |b[1..]| && a[1..] == b[1..][..|a[1..]|] {
          assert a == b[..|a|];
        } else {
          var i :| 0 <= i < |a[1..]| && i < |b[1..]| && a[1..][..i] == b[1..][..i] && a[1..][i] < b[1..][i];
          assert a[..i + 1] == [a[0]] + a[1..][..i];
          assert b[..i + 1] == [b[0]] + b[1..][..i];
        }
      }
    }
  }

  /** Different first components make every non-empty common prefix differ. */
  lemma HeadDecides(a: seq<nat>, b: seq<nat>)
    requires |a| > 0 && |b| > 0 && a[0] != b[0]
    ensures forall i :: 0 < i <= |a| && i <= |b| ==> a[..i] != b[..i]
  {
    forall i | 0 < i <= |a| && i <= |b|
      ensures a[..i] != b[..i]
    {
      assert a[..i][0] == a[0];
      assert b[..i][0] == b[0];
    }
  }

  /** Swapping the arguments reverses the answer. */
  lemma {:induction false} LexCompareFlip(a: seq<nat>, b: seq<nat>)
    ensures LexCompare(b, a) == LexCompare(a, b).Reverse()
    decreases |a|
  {
    if |a| > 0 && |b| > 0 && a[0] == b[0] {
      LexCompareFlip(a[1..], b[1..]);
    }
  }

  /** "Not greater" is transitive. */
  lemma {:induction false} LexCompareTransitive(a: seq<nat>, b: seq<nat>, c: seq<nat>)
    requires LexCompare(a, b) != Greater && LexCompare(b, c) != Greater
    ensures LexCompare(a, c) != Greater
    decreases |a|
  {
    if |a| > 0 && |b| > 0 && |c| > 0 && a[0] == b[0] == c[0] {
      LexCompareTransitive(a[1..], b[1..], c[1..]);
    }
  }

  lemma CmpVersionsReflexive(a: string)
    ensures CmpVersions(a, a) == Equal
  {
  }

  /** `cmp_versions(b, a)` is the reverse of `cmp_versions(a, b)`. */
  lemma CmpVersionsFlip(a: string, b: string)
    ensures CmpVersions(b, a) == CmpVersions(a, b).Reverse()
  {
    LexCompareFlip(NumericParts(a), NumericParts(b));
  }

  lemma CmpVersionsTransitive(a: string, b: string, c: string)
    requires CmpVersions(a, b) != Greater && CmpVersions(b, c) != Greater
    ensures CmpVersions(a, c) != Greater
  {
    LexCompareTransitive(NumericParts(a), NumericParts(b), NumericParts(c));
  }

  /** Two versions compare `Equal` exactly when their numeric parts coincide (so `"1.02"` ties `"1.2"`). */
  lemma CmpVersionsEqual(a: string, b: string)
    ensures CmpVersions(a, b) == Equal <==> NumericParts(a) == NumericParts(b)
  {
  }

  lemma ThreeParts(x: string, y: string, z: string)
    requires '.' !in x && '.' !in y && '.' !in z
    ensures Split(x + "." + y + "." + z, '.') == [x, y, z]
  {
    SplitNoSep(x, '.');
    SplitNoSep(y, '.');
    SplitNoSep(z, '.');
    SplitAppend(y, z, '.');
    assert x + "." + y + "." + z == x + ['.'] + (y + ['.'] + z);
    SplitAppend(x, y + ['.'] + z, '.');
  }

  lemma TwoParts(x: string, y: string)
    requires '.' !in x && '.' !in y
    ensures Split(x + "." + y, '.') == [x, y]
  {
    SplitNoSep(x, '.');
    SplitNoSep(y, '.');
    SplitAppend(x, y, '.');
  }

  lemma NumericThree(x: string, y: string, z: string, nx: nat, ny: nat, nz: nat)
    requires '.' !in x && '.' !in y && '.' !in z
    requires ParseU32(x) == Some(nx) && ParseU32(y) == Some(ny) && ParseU32(z) == Some(nz)
    ensures NumericParts(x + "." + y + "." + z) == [nx, ny, nz]
  {
    ThreeParts(x, y, z);
    var ps := [x, y, z];
    assert ps[1..][1..][1..] == [];
    assert ParsedComponents(ps[1..][1..]) == [nz];
    assert ParsedComponents(ps[1..]) == [ny, nz];
  }

  lemma NumericTwo(x: string, y: string, nx: nat, ny: nat)
    requires '.' !in x && '.' !in y
    requires ParseU32(x) == Some(nx) && ParseU32(y) == Some(ny)
    ensures NumericParts(x + "." + y) == [nx, ny]
  {
    TwoParts(x, y);
    var ps := [x, y];
    assert ps[1..][1..] == [];
    assert ParsedComponents(ps[1..]) == [ny];
  }

  lemma SmallNumbers()
    ensures ParseU32("0") == Some(0) && ParseU32("1") == Some(1) && ParseU32("2") == Some(2)
    ensures ParseU32("9") == Some(9) && ParseU32("10") == Some(10)
  {
    ParseDecimal(0);
    ParseDecimal(1);
    ParseDecimal(2);
    ParseDecimal(9);
    ParseDecimal(10);
    assert Decimal(10) == Decimal(1) + "0";
  }

  /** Components compare as numbers, not text: `1.10.0` is newer than `1.9.0`. */
  lemma NumericNotLexical()
    ensures CmpVersions("1.10.0", "1.9.0") == Greater
  {
    assert "1.10.0" == "1" + "." + "10" + "." + "0";
    assert "1.9.0" == "1" + "." + "9" + "." + "0";
    SmallNumbers();
    NumericThree("1", "10", "0", 1, 10, 0);
    NumericThree("1", "9", "0", 1, 9, 0);
    assert LexCompare([1, 10, 0], [1, 9, 0]) == Greater by {
      assert [1, 10, 0][1..] == [10, 0] && [1, 9, 0][1..] == [9, 0];
    }
  }

  /** On an equal common prefix more components win: `1.2` is older than `1.2.0`. */
  lemma LongerWins()
    ensures CmpVersions("1.2", "1.2.0") == Less
  {
    assert "1.2" == "1" + "." + "2";
    assert "1.2.0" == "1" + "." + "2" + "." + "0";
    SmallNumbers();
    NumericTwo("1", "2", 1, 2);
    NumericThree("1", "2", "0", 1, 2, 0);
  }

  /**
   * The filter of `match_first_version`: the query and the candidate agree at
   * every dot-position both have (`zip` stops at the shorter one).
   */
  predicate Agrees(query: string, v: string) {
    var q := Split(query, '.');
    var t := Split(v, '.');
    forall i :: 0 <= i < |q| && i < |t| ==> q[i] == t[i]
  }

  /** Because of `zip`, a registered `3.12` agrees with the longer query `3.12.1`. */
  lemma ShorterRegisteredAgrees()
    ensures Agrees("3.12.1", "3.12")
    ensures Agrees("3.12", "3.12.7")
    ensures !Agrees("3.12", "3.11.9")
  {
    AgreesWithPrefix();
    AgreesWithExtension();
    DisagreesOnMinor();
  }

  lemma AgreesWithPrefix()
    ensures Agrees("3.12.1", "3.12")
  {
    assert "3.12.1" == "3" + "." + "12" + "." + "1";
    assert "3.12" == "3" + "." + "12";
    ThreeParts("3", "12", "1");
    TwoParts("3", "12");
  }

  lemma AgreesWithExtension()
    ensures Agrees("3.12", "3.12.7")
  {
    assert "3.12" == "3" + "." + "12";
    assert "3.12.7" == "3" + "." + "12" + "." + "7";
    TwoParts("3", "12");
    ThreeParts("3", "12", "7");
  }

  lemma DisagreesOnMinor()
    ensures !Agrees("3.12", "3.11.9")
  {
    assert "3.12" == "3" + "." + "12";
    assert "3.11.9" == "3" + "." + "11" + "." + "9";
    TwoParts("3", "12");
    ThreeParts("3", "11", "9");
    assert Split("3.12", '.')[1] != Split("3.11.9", '.')[1];
  }
}
