/**
 * Choosing the package files to publish from the listing of the output
 * directory (step 6 of build_test_pack_and_publish): the first package
 * archive whose name mentions NFun, and optionally the first NFun symbol
 * archive. The listing is a parameter; `None` stands for a missing directory.
 */
module Artifacts {
  import opened Wrappers
  import opened Text

  const PackageSuffix: string := ".nupkg"
  const SymbolSuffix: string := ".snupkg"
  const ProductMark: string := "NFun"

  /** A package archive: ends in `.nupkg` but not in `.snupkg`. */
  predicate IsPackageArchive(f: string)
  {
    EndsWith(f, PackageSuffix) && !EndsWith(f, SymbolSuffix)
  }

  /** The name mentions the product (case-sensitive substring test). */
  predicate MentionsNFun(f: string)
  {
    Contains(f, ProductMark)
  }

  /** A symbol archive of the product: ends in `.snupkg` and mentions NFun. */
  predicate IsNFunSymbolArchive(f: string)
  {
    EndsWith(f, SymbolSuffix) && MentionsNFun(f)
  }

  /**
   * No name ends in both suffixes (they differ six characters from the
   * end), so the `.snupkg` exclusion never removes a `.nupkg` name.
   */
  lemma SymbolExclusionRedundant(f: string)
    ensures IsPackageArchive(f) <==> EndsWith(f, PackageSuffix)
  {
    if EndsWith(f, PackageSuffix) {
      assert f[|f| - 6] == f[|f| - |PackageSuffix|..][0] == '.';
      assert |f| >= 7 ==> f[|f| - 7..][1] == f[|f| - 6];
    }
  }

  /** A list comprehension `[f for f in s if p(f)]`. */
  function Filter(s: seq<string>, p: string -> bool): (r: seq<string>)
    ensures |r| <= |s|
    ensures forall f :: f in r <==> f in s && p(f)
  {
    if s == [] then []
    else if p(s[0]) then [s[0]] + Filter(s[1..], p)
    else Filter(s[1..], p)
  }

  /** The first element a comprehension keeps is the first element of `s` that satisfies `p`. */
  lemma {:induction false} FilterHead(s: seq<string>, p: string -> bool) returns (i: nat)
    requires Filter(s, p) != []
    ensures i < |s| && p(s[i]) && Filter(s, p)[0] == s[i]
    ensures forall j :: 0 <= j < i ==> !p(s[j])
  {
    if p(s[0]) {
      i := 0;
    } else {
      var k := FilterHead(s[1..], p);
      i := k + 1;
      forall j | 0 <= j < i ensures !p(s[j]) {
        if j > 0 {
          assert s[j] == s[1..][j - 1];
        }
      }
    }
  }

  /** The first element kept by two comprehensions in a row is the first element of `s` that passes both tests. */
  lemma {:induction false} FilterTwiceHead(s: seq<string>, p: string -> bool, q: string -> bool) returns (i: nat)
    requires Filter(Filter(s, p), q) != []
    ensures i < |s| && p(s[i]) && q(s[i]) && Filter(Filter(s, p), q)[0] == s[i]
    ensures forall j :: 0 <= j < i ==> !(p(s[j]) && q(s[j]))
  {
    if p(s[0]) && q(s[0]) {
      assert Filter(s, p) == [s[0]] + Filter(s[1..], p);
      i := 0;
    } else {
      assert Filter(Filter(s, p), q) == Filter(Filter(s[1..], p), q) by {
        if p(s[0]) {
          assert Filter(s, p) == [s[0]] + Filter(s[1..], p);
          assert Filter(s, p)[1..] == Filter(s[1..], p);
        }
      }
      var k := FilterTwiceHead(s[1..], p, q);
      i := k + 1;
      forall j | 0 <= j < i ensures !(p(s[j]) && q(s[j])) {
        if j > 0 {
          assert s[j] == s[1..][j - 1];
        }
      }
    }
  }

  /** What step 6 finds. */
  datatype Selection =
    | NoDirectory
    | NoPackages
    | NoNFunPackage
    | Selected(main: string, symbol: Option<string>)

  /**
   * Step 6: no directory, no package archive, or no NFun package archive
   * are failures; otherwise the first NFun package archive, with the first
   * NFun symbol archive if there is one (both taken from the same listing).
   */
  function SelectArtifacts(listing: Option<seq<string>>): Selection
  {
    match listing
    case None => NoDirectory
    case Some(files) =>
      var packages := Filter(files, IsPackageArchive);
      if packages == [] then NoPackages
      else
        var nfunPackages := Filter(packages, MentionsNFun);
        if nfunPackages == [] then NoNFunPackage
        else
          var symbols := Filter(files, IsNFunSymbolArchive);
          Selected(nfunPackages[0], if symbols == [] then None else Some(symbols[0]))
  }

  /** The failures of step 6, each exactly when its condition holds. */
  lemma SelectionFailures(listing: Option<seq<string>>)
    ensures SelectArtifacts(listing) == NoDirectory <==> listing.None?
    ensures SelectArtifacts(listing) == NoPackages <==>
      listing.Some? && forall f :: f in listing.value ==> !IsPackageArchive(f)
    ensures SelectArtifacts(listing) == NoNFunPackage <==>
      && listing.Some?
      && (exists f :: f in listing.value && IsPackageArchive(f))
      && (forall f :: f in listing.value && IsPackageArchive(f) ==> !MentionsNFun(f))
  {
    if listing.Some? {
      var files := listing.value;
      var packages := Filter(files, IsPackageArchive);
      if packages != [] {
        assert packages[0] in packages;
        if Filter(packages, MentionsNFun) != [] {
          var g := Filter(packages, MentionsNFun)[0];
          assert g in Filter(packages, MentionsNFun);
        }
      }
    }
  }

  /**
   * The main package is the first entry of the listing that is a package
   * archive mentioning NFun; in particular it ends in `.nupkg` and never in
   * `.snupkg`.
   */
  lemma SelectedMain(files: seq<string>) returns (i: nat)
    requires SelectArtifacts(Some(files)).Selected?
    ensures i < |files| && SelectArtifacts(Some(files)).main == files[i]
    ensures IsPackageArchive(files[i]) && MentionsNFun(files[i])
    ensures forall j :: 0 <= j < i ==> !(IsPackageArchive(files[j]) && MentionsNFun(files[j]))
    ensures EndsWith(SelectArtifacts(Some(files)).main, PackageSuffix)
    ensures !EndsWith(SelectArtifacts(Some(files)).main, SymbolSuffix)
  {
    i := FilterTwiceHead(files, IsPackageArchive, MentionsNFun);
  }

  /**
   * The symbol package is optional: present exactly when some entry is an
   * NFun symbol archive, and then the first such entry.
   */
  lemma SelectedSymbol(files: seq<string>)
    requires SelectArtifacts(Some(files)).Selected?
    ensures SelectArtifacts(Some(files)).symbol.Some? <==> exists f :: f in files && IsNFunSymbolArchive(f)
    ensures SelectArtifacts(Some(files)).symbol.Some? ==> exists i ::
      && 0 <= i < |files| && SelectArtifacts(Some(files)).symbol.value == files[i]
      && IsNFunSymbolArchive(files[i])
      && (forall j :: 0 <= j < i ==> !IsNFunSymbolArchive(files[j]))
  {
    var symbols := Filter(files, IsNFunSymbolArchive);
    if symbols != [] {
      assert symbols[0] in symbols;
      var i := FilterHead(files, IsNFunSymbolArchive);
    }
  }
}
