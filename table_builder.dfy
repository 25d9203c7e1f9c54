/** The table builder: site rows are left-joined to radar-type rows on the
    type text, the latitude is turned to positive-north, the wavelength and
    beamwidths are brought from tenths to their units, and every row gets
    its IEEE band. Any failed band lookup fails the whole build. */
module TableBuilder {
  import opened Results
  import FrequencyBand
  import Sequences

  /** One row of the site section; the latitude counts positive southward. */
  datatype SiteRecord = SiteRecord(
    id: int, shortName: string, lat: real, lon: real, alt: real,
    typeCode: int, typeText: string, sitesDbId: int)

  /** One row of the type section; wavelength (cm) and beamwidths (degrees)
      are written at ten times their value. */
  datatype TypeRecord = TypeRecord(
    typeCode: int, typeText: string, wavelength: real, beamwidth: real, vBeamwidth: real)

  /** A row of the left join: a site and the type row it met, or None where
      the join found no type row and filled the type columns with NaN. */
  datatype Joined = Joined(site: SiteRecord, radar: Option<TypeRecord>)

  /** A row of the written configuration table, keyed by the site id. */
  datatype ConfigRow = ConfigRow(
    id: int, shortName: string, lat: real, lon: real, alt: real,
    typeCode: int, typeText: string, sitesDbId: int,
    wavelength: real, beamwidth: real, vBeamwidth: real, band: string)

  /** The band lookup that stopped the build, and the site it was for. */
  datatype BuildError = BuildError(siteId: int, cause: FrequencyBand.BandError)

  /** The type rows whose type text is the site's, in table order, each as
      often as the type table holds it. */
  function MatchingTypes(site: SiteRecord, types: seq<TypeRecord>): (r: seq<TypeRecord>)
    ensures forall t :: t in r <==> t in types && t.typeText == site.typeText
  {
    if types == [] then []
    else (if types[0].typeText == site.typeText then [types[0]] else []) + MatchingTypes(site, types[1..])
  }

  /** Matching keeps each type row of the site's type text as often as the
      type table holds it, and no other. */
  lemma {:induction false} MatchingTypesCounts(site: SiteRecord, types: seq<TypeRecord>)
    ensures forall t :: multiset(MatchingTypes(site, types))[t] ==
              if t.typeText == site.typeText then multiset(types)[t] else 0
  {
    if types != [] {
      MatchingTypesCounts(site, types[1..]);
      assert types == [types[0]] + types[1..];
    }
  }

  /** Matching keeps the type-table order: it distributes over the
      concatenation of two type tables. */
  lemma {:induction false} MatchingTypesAppend(site: SiteRecord, a: seq<TypeRecord>, b: seq<TypeRecord>)
    ensures MatchingTypes(site, a + b) == MatchingTypes(site, a) + MatchingTypes(site, b)
  {
    if a == [] {
      assert a + b == b;
    } else {
      assert (a + b)[0] == a[0] && (a + b)[1..] == a[1..] + b;
      MatchingTypesAppend(site, a[1..], b);
    }
  }

  /** The matched join rows of a site, one per type row, in order. */
  function MatchedRows(site: SiteRecord, m: seq<TypeRecord>): (r: seq<Joined>)
    ensures |r| == |m|
    ensures forall k :: 0 <= k < |m| ==> r[k] == Joined(site, Some(m[k]))
  {
    if m == [] then []
    else [Joined(site, Some(m[0]))] + MatchedRows(site, m[1..])
  }

  /** Each type row gives its matched join row as often as it occurs. */
  lemma {:induction false} MatchedRowsCounts(site: SiteRecord, m: seq<TypeRecord>)
    ensures forall t :: multiset(MatchedRows(site, m))[Joined(site, Some(t))] == multiset(m)[t]
  {
    if m != [] {
      MatchedRowsCounts(site, m[1..]);
      assert m == [m[0]] + m[1..];
      assert MatchedRows(site, m) == [Joined(site, Some(m[0]))] + MatchedRows(site, m[1..]);
    }
  }

  /** The join rows of one site: one per matching type row, in type-table
      order, or a single unmatched row. */
  function JoinSite(site: SiteRecord, types: seq<TypeRecord>): (r: seq<Joined>)
    ensures |r| >= 1
    ensures forall j :: j in r ==> j.site == site
  {
    var m := MatchingTypes(site, types);
    if m == [] then [Joined(site, None)] else MatchedRows(site, m)
  }

  /** A site's join rows carry only type rows of its type text, carry every
      one of them, and include the unmatched row exactly when there is
      none. */
  lemma JoinSiteMembers(site: SiteRecord, types: seq<TypeRecord>)
    ensures var r := JoinSite(site, types);
            forall j :: j in r && j.radar.Some? ==>
              j.radar.value in types && j.radar.value.typeText == site.typeText
    ensures forall t :: t in types && t.typeText == site.typeText ==> Joined(site, Some(t)) in JoinSite(site, types)
    ensures Joined(site, None) in JoinSite(site, types) <==> forall t :: t in types ==> t.typeText != site.typeText
  {
    var m := MatchingTypes(site, types);
    if m != [] {
      assert m[0] in types;
    }
  }

  /** A site's join rows follow its matching type rows one for one and in
      order, each type row as often as the type table holds it; without a
      match there is exactly one unmatched row. */
  lemma JoinSiteRows(site: SiteRecord, types: seq<TypeRecord>)
    ensures MatchingTypes(site, types) == [] ==> JoinSite(site, types) == [Joined(site, None)]
    ensures var r, m := JoinSite(site, types), MatchingTypes(site, types);
              m != [] ==> |r| == |m| && forall k :: 0 <= k < |r| ==> r[k].radar == Some(m[k])
    ensures forall t :: multiset(JoinSite(site, types))[Joined(site, Some(t))] ==
              if t.typeText == site.typeText then multiset(types)[t] else 0
  {
    MatchingTypesCounts(site, types);
    MatchedRowsCounts(site, MatchingTypes(site, types));
  }

  /** pandas' merge(how="left", on="typetext"): every site in order, each
      repeated once per matching type row, or kept once unmatched. */
  function LeftJoin(sites: seq<SiteRecord>, types: seq<TypeRecord>): (r: seq<Joined>)
    ensures |r| >= |sites|
    ensures forall j :: j in r ==> j.site in sites
    ensures forall j :: j in r && j.radar.Some? ==>
              j.radar.value in types && j.radar.value.typeText == j.site.typeText
    ensures forall j :: j in r && j.radar.None? ==>
              forall t :: t in types ==> t.typeText != j.site.typeText
  {
    if sites == [] then []
    else
      JoinSiteMembers(sites[0], types);
      JoinSite(sites[0], types) + LeftJoin(sites[1..], types)
  }

  /** The join keeps the site order: it distributes over the concatenation
      of two site tables. */
  lemma {:induction false} LeftJoinAppend(a: seq<SiteRecord>, b: seq<SiteRecord>, types: seq<TypeRecord>)
    ensures LeftJoin(a + b, types) == LeftJoin(a, types) + LeftJoin(b, types)
  {
    if a == [] {
      assert a + b == b;
      Sequences.EmptyPrefix(LeftJoin(b, types));
    } else {
      var s, rest := a[0], a[1..];
      assert a + b == [s] + (rest + b) && a == [s] + rest;
      LeftJoinAppend(rest, b, types);
      LeftJoinCons(s, rest + b, types);
      LeftJoinCons(s, rest, types);
      Sequences.Regroup(JoinSite(s, types), LeftJoin(rest, types), LeftJoin(b, types));
    }
  }

  lemma LeftJoinCons(s: SiteRecord, rest: seq<SiteRecord>, types: seq<TypeRecord>)
    ensures LeftJoin([s] + rest, types) == JoinSite(s, types) + LeftJoin(rest, types)
  {
    assert ([s] + rest)[1..] == rest;
  }

  /** Each occurrence of a site in the site table meets each occurrence of
      a type row of its type text once. */
  lemma {:induction false} LeftJoinMatchedCount(sites: seq<SiteRecord>, types: seq<TypeRecord>, s: SiteRecord, t: TypeRecord)
    requires t.typeText == s.typeText
    ensures multiset(LeftJoin(sites, types))[Joined(s, Some(t))] == multiset(sites)[s] * multiset(types)[t]
  {
    if sites != [] {
      var head, rest := JoinSite(sites[0], types), LeftJoin(sites[1..], types);
      var x := Joined(s, Some(t));
      LeftJoinMatchedCount(sites[1..], types, s, t);
      SplitCounts(sites, types, x);
      var n := multiset(sites[1..])[s];
      if sites[0] == s {
        assert multiset(head)[x] == multiset(types)[t] by { JoinSiteRows(s, types); }
        CountStep(multiset(LeftJoin(sites, types))[x], multiset(head)[x], multiset(rest)[x],
                  multiset(sites)[s], n, multiset(types)[t]);
      } else {
        assert multiset(head)[x] == 0 by { assert x !in head; }
      }
    }
  }

  /** A site no type row matches has one unmatched row per occurrence in
      the site table. */
  lemma {:induction false} LeftJoinUnmatchedCount(sites: seq<SiteRecord>, types: seq<TypeRecord>, s: SiteRecord)
    requires forall t :: t in types ==> t.typeText != s.typeText
    ensures multiset(LeftJoin(sites, types))[Joined(s, None)] == multiset(sites)[s]
  {
    if sites != [] {
      var head := JoinSite(sites[0], types);
      LeftJoinUnmatchedCount(sites[1..], types, s);
      SplitCounts(sites, types, Joined(s, None));
      if sites[0] == s {
        assert head == [Joined(s, None)];
      } else {
        assert Joined(s, None) !in head;
      }
    }
  }

  /** The count of a join row splits into the first site's rows and the
      rest's, and the count of that site likewise. */
  lemma SplitCounts(sites: seq<SiteRecord>, types: seq<TypeRecord>, x: Joined)
    requires sites != []
    ensures multiset(LeftJoin(sites, types))[x] ==
              multiset(JoinSite(sites[0], types))[x] + multiset(LeftJoin(sites[1..], types))[x]
    ensures multiset(sites)[x.site] == (if sites[0] == x.site then 1 else 0) + multiset(sites[1..])[x.site]
  {
    assert sites == [sites[0]] + sites[1..];
  }

  /** Arithmetic of one counting step: one more occurrence of the site adds
      one more round of the type row's occurrences. */
  lemma CountStep(total: nat, inHead: nat, inRest: nat, a: nat, n: nat, c: nat)
    requires total == inHead + inRest && inHead == c && inRest == n * c && a == n + 1
    ensures total == a * c
  {
  }

  /** The transformation of one join row, or the failed band lookup. */
  function Transform(j: Joined): (r: Result<ConfigRow, BuildError>)
    ensures r.Success? <==>
              j.radar.Some? && FrequencyBand.GetFrequencyBand(j.radar.value.wavelength / 10.0).Success?
    ensures r.Failure? ==> r.error.siteId == j.site.id
    ensures r.Failure? ==>
              r.error.cause == (if j.radar.None? then FrequencyBand.InvalidWavelength
                                else FrequencyBand.GetFrequencyBand(j.radar.value.wavelength / 10.0).error)
  {
    match j.radar
    case None =>
      // NaN wavelength: no band holds it
      Failure(BuildError(j.site.id, FrequencyBand.InvalidWavelength))
    case Some(t) =>
      var w := t.wavelength / 10.0;
      match FrequencyBand.GetFrequencyBand(w)
      case Failure(e) => Failure(BuildError(j.site.id, e))
      case Success(band) =>
        Success(ConfigRow(j.site.id, j.site.shortName, -j.site.lat, j.site.lon, j.site.alt,
                          j.site.typeCode, j.site.typeText, j.site.sitesDbId,
                          w, t.beamwidth / 10.0, t.vBeamwidth / 10.0, band))
  }

  /** A transformed row keeps the site's columns, turns the latitude to
      positive-north, has the radar's wavelength and beamwidths at a tenth
      of their written value, and carries the band of its wavelength. */
  lemma TransformedRowFields(j: Joined)
    requires Transform(j).Success?
    ensures var row := Transform(j).value;
              && row.id == j.site.id && row.shortName == j.site.shortName
              && row.lat == -j.site.lat && row.lon == j.site.lon && row.alt == j.site.alt
              && row.typeCode == j.site.typeCode && row.typeText == j.site.typeText
              && row.sitesDbId == j.site.sitesDbId
              && row.wavelength * 10.0 == j.radar.value.wavelength
              && row.beamwidth * 10.0 == j.radar.value.beamwidth
              && row.vBeamwidth * 10.0 == j.radar.value.vBeamwidth
              && FrequencyBand.GetFrequencyBand(row.wavelength) == Success(row.band)
  {
    var t := j.radar.value;
    var w := t.wavelength / 10.0;
    var band := FrequencyBand.GetFrequencyBand(w).value;
    assert Transform(j) == Success(ConfigRow(j.site.id, j.site.shortName, -j.site.lat, j.site.lon, j.site.alt,
                                             j.site.typeCode, j.site.typeText, j.site.sitesDbId,
                                             w, t.beamwidth / 10.0, t.vBeamwidth / 10.0, band));
    TenthTimesTen(t.wavelength);
    TenthTimesTen(t.beamwidth);
    TenthTimesTen(t.vBeamwidth);
  }

  lemma TenthTimesTen(x: real)
    ensures (x / 10.0) * 10.0 == x
  {
  }

  /** Transforms every join row in order; the first failure stops it all. */
  function TransformAll(js: seq<Joined>): (r: Result<seq<ConfigRow>, BuildError>)
    ensures r.Success? <==> forall k :: 0 <= k < |js| ==> Transform(js[k]).Success?
    ensures r.Success? ==>
              |r.value| == |js| && forall k :: 0 <= k < |js| ==> Transform(js[k]) == Success(r.value[k])
    ensures r.Failure? ==>
              exists k :: 0 <= k < |js| && Transform(js[k]) == Failure(r.error)
                          && forall i :: 0 <= i < k ==> Transform(js[i]).Success?
  {
    if js == [] then Success([])
    else
      match Transform(js[0])
      case Failure(e) => Failure(e)
      case Success(row) =>
        match TransformAll(js[1..])
        case Failure(e) =>
          assert forall k :: 1 <= k < |js| ==> js[k] == js[1..][k - 1];
          Failure(e)
        case Success(rows) =>
          assert forall k :: 1 <= k < |js| ==> js[k] == js[1..][k - 1];
          Success([row] + rows)
  }

  /** The whole build: join, transform, classify. */
  function Build(sites: seq<SiteRecord>, types: seq<TypeRecord>): (r: Result<seq<ConfigRow>, BuildError>)
    ensures r.Success? ==> |r.value| >= |sites|
    ensures r.Failure? ==> exists s :: s in sites && s.id == r.error.siteId
  {
    TransformAll(LeftJoin(sites, types))
  }

  /** Every site reaches the join: unmatched as one NaN row, matched once
      per type row with its type text. */
  lemma {:induction false} LeftJoinCoversSites(sites: seq<SiteRecord>, types: seq<TypeRecord>, s: SiteRecord)
    requires s in sites
    ensures (forall t :: t in types ==> t.typeText != s.typeText) ==> Joined(s, None) in LeftJoin(sites, types)
    ensures forall t :: t in types && t.typeText == s.typeText ==> Joined(s, Some(t)) in LeftJoin(sites, types)
  {
    if sites[0] != s {
      LeftJoinCoversSites(sites[1..], types, s);
    } else {
      JoinSiteMembers(s, types);
    }
  }

  /** Every site's type rows are all present and all classifiable. */
  ghost predicate AllSitesClassifiable(sites: seq<SiteRecord>, types: seq<TypeRecord>) {
    forall s :: s in sites ==>
      && (exists t :: t in types && t.typeText == s.typeText)
      && (forall t :: t in types && t.typeText == s.typeText ==>
            FrequencyBand.GetFrequencyBand(t.wavelength / 10.0).Success?)
  }

  /** The build succeeds exactly when every site's type text is in the type
      table and every type row it matches has a wavelength some IEEE band
      holds; a single unmatched site or bad wavelength writes nothing. */
  lemma BuildSucceedsExactly(sites: seq<SiteRecord>, types: seq<TypeRecord>)
    ensures Build(sites, types).Success? <==> AllSitesClassifiable(sites, types)
  {
    if Build(sites, types).Success? {
      forall s | s in sites
        ensures exists t :: t in types && t.typeText == s.typeText
        ensures forall t :: t in types && t.typeText == s.typeText ==>
                  FrequencyBand.GetFrequencyBand(t.wavelength / 10.0).Success?
      {
        SucceededSiteClassifiable(sites, types, s);
      }
    } else {
      var js := LeftJoin(sites, types);
      var k :| 0 <= k < |js| && Transform(js[k]).Failure?;
      assert js[k] in js;
    }
  }

  /** After a successful build, every site has a type row and all its type
      rows classify. */
  lemma SucceededSiteClassifiable(sites: seq<SiteRecord>, types: seq<TypeRecord>, s: SiteRecord)
    requires Build(sites, types).Success? && s in sites
    ensures exists t :: t in types && t.typeText == s.typeText
    ensures forall t :: t in types && t.typeText == s.typeText ==>
              FrequencyBand.GetFrequencyBand(t.wavelength / 10.0).Success?
  {
    if forall t :: t in types ==> t.typeText != s.typeText {
      assert Joined(s, None) in LeftJoin(sites, types) by {
        LeftJoinCoversSites(sites, types, s);
      }
      SucceededRowTransforms(sites, types, Joined(s, None));
    }
    forall t | t in types && t.typeText == s.typeText
      ensures FrequencyBand.GetFrequencyBand(t.wavelength / 10.0).Success?
    {
      SucceededTypeClassified(sites, types, s, t);
    }
  }

  lemma SucceededTypeClassified(sites: seq<SiteRecord>, types: seq<TypeRecord>, s: SiteRecord, t: TypeRecord)
    requires Build(sites, types).Success? && s in sites
    requires t in types && t.typeText == s.typeText
    ensures FrequencyBand.GetFrequencyBand(t.wavelength / 10.0).Success?
  {
    assert Joined(s, Some(t)) in LeftJoin(sites, types) by {
      LeftJoinCoversSites(sites, types, s);
    }
    SucceededRowTransforms(sites, types, Joined(s, Some(t)));
    TransformedTypeClassified(s, t);
  }

  /** A successful build transformed every row of the join. */
  lemma SucceededRowTransforms(sites: seq<SiteRecord>, types: seq<TypeRecord>, j: Joined)
    requires Build(sites, types).Success? && j in LeftJoin(sites, types)
    ensures Transform(j).Success?
  {
    var k :| 0 <= k < |LeftJoin(sites, types)| && LeftJoin(sites, types)[k] == j;
    SucceededAt(sites, types, k);
  }

  lemma SucceededAt(sites: seq<SiteRecord>, types: seq<TypeRecord>, k: nat)
    requires Build(sites, types).Success? && k < |LeftJoin(sites, types)|
    ensures Transform(LeftJoin(sites, types)[k]).Success?
  {
  }

  lemma TransformedTypeClassified(s: SiteRecord, t: TypeRecord)
    requires Transform(Joined(s, Some(t))).Success?
    ensures FrequencyBand.GetFrequencyBand(t.wavelength / 10.0).Success?
  {
  }

  /** A site whose type text no type row carries fails the build. */
  lemma UnmatchedSiteFailsBuild(sites: seq<SiteRecord>, types: seq<TypeRecord>, k: nat)
    requires k < |sites|
    requires forall t :: t in types ==> t.typeText != sites[k].typeText
    ensures Build(sites, types).Failure?
  {
    assert sites[k] in sites;
    BuildSucceedsExactly(sites, types);
  }

  /** With one type row per type text, the join has one row per site, in
      the site order. */
  lemma {:induction false} OneRowPerSite(sites: seq<SiteRecord>, types: seq<TypeRecord>)
    requires forall i, j :: 0 <= i < j < |types| ==> types[i].typeText != types[j].typeText
    ensures |LeftJoin(sites, types)| == |sites|
    ensures forall k :: 0 <= k < |sites| ==> LeftJoin(sites, types)[k].site == sites[k]
  {
    if sites != [] {
      var head, rest := JoinSite(sites[0], types), LeftJoin(sites[1..], types);
      UniqueTextsJoinOnce(sites[0], types);
      OneRowPerSite(sites[1..], types);
      assert LeftJoin(sites, types) == head + rest;
      assert head[0] in head;
      forall k | 1 <= k < |sites| ensures LeftJoin(sites, types)[k].site == sites[k] {
        assert (head + rest)[k] == rest[k - 1];
        assert sites[k] == sites[1..][k - 1];
      }
    }
  }

  /** With one type row per type text, a site meets at most one type row
      and has exactly one join row. */
  lemma {:induction false} UniqueTextsJoinOnce(site: SiteRecord, types: seq<TypeRecord>)
    requires forall i, j :: 0 <= i < j < |types| ==> types[i].typeText != types[j].typeText
    ensures |MatchingTypes(site, types)| <= 1
    ensures |JoinSite(site, types)| == 1
  {
    if types != [] {
      UniqueTextsJoinOnce(site, types[1..]);
      if types[0].typeText == site.typeText {
        assert forall t :: t in types[1..] ==> t.typeText != site.typeText;
        var m := MatchingTypes(site, types[1..]);
        if m != [] {
          assert m[0] in m;
        }
      }
    }
  }

  /** A site at latitude 10 (south) with a 50 (tenths of cm) radar becomes a
      row at latitude -10 with a 5 cm, C-band radar. */
  lemma WorkedExample(site: SiteRecord, radar: TypeRecord)
    requires site.lat == 10.0 && radar.wavelength == 50.0 && radar.typeText == site.typeText
    ensures Build([site], [radar]).Success?
    ensures var rows := Build([site], [radar]).value;
              |rows| == 1 && rows[0].lat == -10.0 && rows[0].wavelength == 5.0 && rows[0].band == "C"
  {
    var j := Joined(site, Some(radar));
    ExampleRow(site, radar);
    assert LeftJoin([site], [radar]) == [j] by {
      assert MatchingTypes(site, [radar]) == [radar];
    }
    assert [j][1..] == [];
  }

  lemma ExampleRow(site: SiteRecord, radar: TypeRecord)
    requires site.lat == 10.0 && radar.wavelength == 50.0
    ensures Transform(Joined(site, Some(radar))).Success?
    ensures var row := Transform(Joined(site, Some(radar))).value;
              row.lat == -10.0 && row.wavelength == 5.0 && row.band == "C"
  {
    FrequencyBand.WavelengthExamples();
    assert radar.wavelength / 10.0 == 5.0;
  }
}
