/** The App Store Connect screenshot catalog: an ordered table of devices,
    each with a key, a display name and a portrait and a landscape pixel size.
    Iteration order matters, because the matcher keeps the first of equally
    good entries. */
module AppleSpecs {

  /** A (width, height) pixel pair. */
  datatype Dims = Dims(width: int, height: int) {

    predicate Positive() {
      width > 0 && height > 0
    }

    /** The same pair with the axes exchanged. */
    function Swap(): Dims {
      Dims(height, width)
    }
  }

  /** One catalog entry. The landscape pair is stored on its own and is not
      derived from the portrait pair. */
  datatype SpecEntry = SpecEntry(key: string, name: string, portrait: Dims, landscape: Dims)

  /** Every pixel component of every entry is a positive integer. */
  predicate AllPositive(catalog: seq<SpecEntry>) {
    forall i :: 0 <= i < |catalog| ==> catalog[i].portrait.Positive() && catalog[i].landscape.Positive()
  }

  /** Portrait pairs are taller than wide, landscape pairs wider than tall. */
  predicate WellShaped(catalog: seq<SpecEntry>) {
    forall i :: 0 <= i < |catalog| ==>
      catalog[i].portrait.width < catalog[i].portrait.height &&
      catalog[i].landscape.width > catalog[i].landscape.height
  }

  /** No two entries share a key (the table is a dictionary). */
  predicate KeysDistinct(catalog: seq<SpecEntry>) {
    forall i, j :: 0 <= i < j < |catalog| ==> catalog[i].key != catalog[j].key
  }

  /** In every entry the landscape pair is the portrait pair turned sideways. */
  predicate LandscapeIsSwappedPortrait(catalog: seq<SpecEntry>) {
    forall i :: 0 <= i < |catalog| ==> catalog[i].landscape == catalog[i].portrait.Swap()
  }

  /** Entries i and j carry the same two pixel pairs. */
  predicate SameDims(catalog: seq<SpecEntry>, i: nat, j: nat)
    requires i < |catalog| && j < |catalog|
  {
    catalog[i].portrait == catalog[j].portrait && catalog[i].landscape == catalog[j].landscape
  }

  /** The static catalog, in the order the table lists it. */
  function Catalog(): (specs: seq<SpecEntry>)
    ensures |specs| == 12
    ensures specs[0].key == "iphone_16_pro_max"
    ensures AllPositive(specs) && WellShaped(specs)
    ensures LandscapeIsSwappedPortrait(specs)
    // identical dimensions, so ties between entries are reachable
    ensures SameDims(specs, 0, 4)
    ensures SameDims(specs, 1, 2) && SameDims(specs, 1, 3)
    ensures SameDims(specs, 6, 7) && SameDims(specs, 6, 8) && SameDims(specs, 6, 10)
    ensures SameDims(specs, 9, 11)
  {
    [
      SpecEntry("iphone_16_pro_max", "iPhone 16 Pro Max", Dims(1290, 2796), Dims(2796, 1290)),
      SpecEntry("iphone_16_plus", "iPhone 16 Plus", Dims(1320, 2868), Dims(2868, 1320)),
      SpecEntry("iphone_15_pro_max", "iPhone 15 Pro Max", Dims(1320, 2868), Dims(2868, 1320)),
      SpecEntry("iphone_15_plus", "iPhone 15 Plus", Dims(1320, 2868), Dims(2868, 1320)),
      SpecEntry("iphone_14_pro_max", "iPhone 14 Pro Max", Dims(1290, 2796), Dims(2796, 1290)),
      SpecEntry("iphone_14_plus", "iPhone 14 Plus", Dims(1284, 2778), Dims(2778, 1284)),
      SpecEntry("iphone_13_pro_max", "iPhone 13 Pro Max", Dims(1242, 2688), Dims(2688, 1242)),
      SpecEntry("iphone_12_pro_max", "iPhone 12 Pro Max", Dims(1242, 2688), Dims(2688, 1242)),
      SpecEntry("iphone_11_pro_max", "iPhone 11 Pro Max", Dims(1242, 2688), Dims(2688, 1242)),
      SpecEntry("iphone_11", "iPhone 11", Dims(828, 1792), Dims(1792, 828)),
      SpecEntry("iphone_xs_max", "iPhone XS Max", Dims(1242, 2688), Dims(2688, 1242)),
      SpecEntry("iphone_xr", "iPhone XR", Dims(828, 1792), Dims(1792, 828))
    ]
  }

  /** The catalog's keys are pairwise distinct. Each key is told apart by its
      length and the two characters after the "iphone_" prefix. */
  lemma CatalogKeysDistinct()
    ensures KeysDistinct(Catalog())
  {
    var c := Catalog();
    var sigs := seq(|c|, i requires 0 <= i < |c| => (|c[i].key|, c[i].key[7], c[i].key[8]));
    assert sigs == [(17, '1', '6'), (14, '1', '6'), (17, '1', '5'), (14, '1', '5'),
                    (17, '1', '4'), (14, '1', '4'), (17, '1', '3'), (17, '1', '2'),
                    (17, '1', '1'), (9, '1', '1'), (13, 'x', 's'), (9, 'x', 'r')];
    forall i, j | 0 <= i < j < |c|
      ensures c[i].key != c[j].key
    {
      assert sigs[i] != sigs[j];
    }
  }
}
