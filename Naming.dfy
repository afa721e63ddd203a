// The unique-name policy used when a file is imported or a page folder is
// created: a taken name gets a parenthesized counter before its extension.

module Naming {
  import opened DataModel

  /** The position of the last '.' in `s`, if any. */
  function LastDot(s: string): (r: Option<nat>)
    ensures r.Some? ==> r.value < |s| && s[r.value] == '.' && forall j :: r.value < j < |s| ==> s[j] != '.'
    ensures r.None? ==> forall j :: 0 <= j < |s| ==> s[j] != '.'
  {
    if s == [] then None
    else if s[|s| - 1] == '.' then Some(|s| - 1)
    else LastDot(s[..|s| - 1])
  }

  /**
   * Splits a file name into (base, extension) as `deletingPathExtension` and
   * `pathExtension` do: the extension is what follows the last '.', provided
   * that dot neither starts nor ends the name; otherwise it is empty and the
   * base is the whole name.
   */
  function SplitExtension(name: string): (r: (string, string))
    ensures r.1 == [] ==> r.0 == name
    ensures r.1 != [] ==> r.0 + "." + r.1 == name && r.0 != []
    ensures forall j :: 0 <= j < |r.1| ==> r.1[j] != '.'
  {
    match LastDot(name)
    case None => (name, "")
    case Some(i) =>
      if i == 0 || i == |name| - 1 then (name, "")
      else
        assert name[..i] + "." + name[i + 1..] == name by {
          assert name == name[..i] + [name[i]] + name[i + 1..];
        }
        (name[..i], name[i + 1..])
  }

  /** The name a (base, extension) pair stands for. */
  function JoinExtension(base: string, ext: string): string
  {
    if ext == [] then base else base + "." + ext
  }

  lemma SplitJoin(name: string)
    ensures JoinExtension(SplitExtension(name).0, SplitExtension(name).1) == name
  {
  }

  /** A suffix without dots does not move the last dot. */
  lemma {:induction false} LastDotUndotted(s: string, t: string)
    requires forall j :: 0 <= j < |t| ==> t[j] != '.'
    ensures LastDot(s + t) == LastDot(s)
    decreases |t|
  {
    if t == [] {
      assert s + t == s;
    } else {
      assert (s + t)[..|s + t| - 1] == s + t[..|t| - 1];
      LastDotUndotted(s, t[..|t| - 1]);
    }
  }

  /**
   * The converse of `SplitJoin`: a non-empty base joined to a non-empty
   * extension without dots splits back into the same two parts.
   */
  lemma SplitOfJoined(base: string, ext: string)
    requires base != [] && ext != []
    requires forall j :: 0 <= j < |ext| ==> ext[j] != '.'
    ensures SplitExtension(JoinExtension(base, ext)) == (base, ext)
  {
    var name := base + "." + ext;
    LastDotUndotted(base + ".", ext);
    assert LastDot(base + ".") == Some(|base|);
    assert name[..|base|] == base && name[|base| + 1..] == ext;
  }

  function DigitChar(d: nat): char
    requires d < 10
  {
    (48 + d) as char
  }

  /** The decimal rendering of a counter, as string interpolation writes it. */
  function Decimal(n: nat): (r: string)
    ensures |r| >= 1
    ensures n >= 10 ==> |r| >= 2
    ensures forall j :: 0 <= j < |r| ==> '0' <= r[j] <= '9'
  {
    if n < 10 then [DigitChar(n)] else Decimal(n / 10) + [DigitChar(n % 10)]
  }

  /** Different counters render differently. */
  lemma {:induction false} DecimalInjective(n: nat, m: nat)
    requires Decimal(n) == Decimal(m)
    ensures n == m
  {
    if n >= 10 && m >= 10 {
      var a, b := Decimal(n), Decimal(m);
      assert a[|a| - 1] == DigitChar(n % 10) && b[|b| - 1] == DigitChar(m % 10);
      assert a[..|a| - 1] == Decimal(n / 10) && b[..|b| - 1] == Decimal(m / 10);
      DecimalInjective(n / 10, m / 10);
    } else if n < 10 && m < 10 {
      assert Decimal(n)[0] == DigitChar(n);
    }
  }

  /** The rendering of a signed integer, as string interpolation writes an `Int`: a minus sign for a negative one. */
  function SignedDecimal(n: int): (r: string)
    ensures n >= 0 ==> r == Decimal(n)
    ensures n < 0 ==> r == "-" + Decimal(-n)
    ensures |r| >= 1 && (r[0] == '-' <==> n < 0)
  {
    if n < 0 then "-" + Decimal(-n) else Decimal(n)
  }

  /** Different integers render differently. */
  lemma SignedDecimalInjective(n: int, m: int)
    requires SignedDecimal(n) == SignedDecimal(m)
    ensures n == m
  {
    if n < 0 {
      assert SignedDecimal(n)[1..] == Decimal(-n) && SignedDecimal(m)[1..] == Decimal(-m);
      DecimalInjective(-n, -m);
    } else {
      DecimalInjective(n, m);
    }
  }

  /** `"base (n).ext"`, or `"base (n)"` when the extension is empty. */
  function Numbered(base: string, n: nat, ext: string): (r: string)
    ensures base <= r && |r| >= |base| + |ext| + 4
  {
    base + " (" + Decimal(n) + ")" + (if ext == [] then "" else "." + ext)
  }

  /** A numbered candidate keeps the extension: the counter goes into the base. */
  lemma NumberedKeepsExtension(base: string, n: nat, ext: string)
    requires ext != [] && forall j :: 0 <= j < |ext| ==> ext[j] != '.'
    ensures SplitExtension(Numbered(base, n, ext)) == (base + " (" + Decimal(n) + ")", ext)
  {
    SplitOfJoined(base + " (" + Decimal(n) + ")", ext);
    assert Numbered(base, n, ext) == JoinExtension(base + " (" + Decimal(n) + ")", ext);
  }

  /** A numbered candidate is never the original name: it is longer. */
  lemma NumberedIsNotOriginal(name: string, n: nat)
    ensures Numbered(SplitExtension(name).0, n, SplitExtension(name).1) != name
  {
    var (base, ext) := SplitExtension(name);
    assert |Numbered(base, n, ext)| > |name|;
  }

  /** The candidates `base (1).ext`, `base (2).ext`, ... are pairwise distinct. */
  lemma NumberedInjective(base: string, ext: string, n: nat, m: nat)
    requires Numbered(base, n, ext) == Numbered(base, m, ext)
    ensures n == m
  {
    var x, y := Numbered(base, n, ext), Numbered(base, m, ext);
    var dn, dm := Decimal(n), Decimal(m);
    var k := |base| + 2;
    assert |dn| == |dm|;
    assert x[k..k + |dn|] == dn;
    assert y[k..k + |dm|] == dm;
    DecimalInjective(n, m);
  }

  /** The names the loop has tried and found taken once `counter` is reached. */
  ghost function Tried(name: string, base: string, ext: string, counter: nat): set<string>
  {
    if counter <= 1 then {}
    else {name} + set k | 1 <= k < counter - 1 :: Numbered(base, k, ext)
  }

  /**
   * `uniqueDestinationURL(for:in:)`: keeps `filename` when it is free,
   * otherwise the numbered candidate with the smallest free counter.
   */
  method UniqueDestinationName(filename: string, existing: set<string>) returns (name: string)
    ensures name !in existing
    ensures filename !in existing ==> name == filename
    ensures filename in existing ==>
      exists n :: 1 <= n && name == Numbered(SplitExtension(filename).0, n, SplitExtension(filename).1) &&
        forall k :: 1 <= k < n ==> Numbered(SplitExtension(filename).0, k, SplitExtension(filename).1) in existing
  {
    var (base, ext) := SplitExtension(filename);
    name := filename;
    var counter: nat := 1;
    ghost var tried: set<string> := {};
    while name in existing
      invariant counter >= 1
      invariant name == if counter == 1 then filename else Numbered(base, counter - 1, ext)
      invariant counter > 1 ==> filename in existing
      invariant forall k :: 1 <= k < counter - 1 ==> Numbered(base, k, ext) in existing
      invariant tried == Tried(filename, base, ext, counter)
      invariant tried <= existing && name !in tried
      decreases existing - tried
    {
      tried := tried + {name};
      name := Numbered(base, counter, ext);
      counter := counter + 1;
      assert tried == Tried(filename, base, ext, counter);
      NumberedIsNotOriginal(filename, counter - 1);
      forall k | 1 <= k < counter - 1
        ensures Numbered(base, k, ext) != name
      {
        if Numbered(base, k, ext) == name {
          NumberedInjective(base, ext, k, counter - 1);
        }
      }
    }
    if filename in existing {
      assert name == Numbered(base, counter - 1, ext);
    }
  }
}
