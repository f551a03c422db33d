/**
 * The certificates section: the filter categories derived from the data, which cards the
 * filter shows, the card labels and the credential id.
 */
module Certificates {
  import opened Wrappers
  import opened JsStrings
  import opened JsCollections
  import opened PortfolioData
  import opened Tabs

  /** `cert.category || 'professional'` */
  function CategoryOf(cert: Certificate): string {
    OrElse(cert.category, "professional")
  }

  /** Each certificate's category, in data order. */
  function CertCategories(certs: seq<Certificate>): (r: seq<string>)
    ensures |r| == |certs| && forall i :: 0 <= i < |certs| ==> r[i] == CategoryOf(certs[i])
  {
    seq(|certs|, i requires 0 <= i < |certs| => CategoryOf(certs[i]))
  }

  /** `['all', ...new Set(certificates.map(cert => cert.category || 'professional'))]` */
  function Categories(certs: seq<Certificate>): (r: seq<string>)
    ensures |r| >= 1 && r[0] == "all"
  {
    ["all"] + Dedupe(CertCategories(certs))
  }

  /**
   * After `'all'` come the certificates' categories, each exactly once, and each listed
   * at the place of its first occurrence in the data.
   */
  lemma CategoriesSpec(certs: seq<Certificate>)
    ensures var r := Categories(certs);
            && (forall i :: 0 <= i < |certs| ==> CategoryOf(certs[i]) in r[1..])
            && (forall k :: 1 <= k < |r| ==> r[k] in CertCategories(certs))
            && NoDuplicates(r[1..])
            && (forall a, b :: 1 <= a < b < |r| ==>
                  FirstIndex(CertCategories(certs), r[a]) < FirstIndex(CertCategories(certs), r[b]))
  {
    var cs := CertCategories(certs);
    DedupeSpec(cs);
    var r := Categories(certs);
    assert r[1..] == Dedupe(cs);
    forall i | 0 <= i < |certs| ensures CategoryOf(certs[i]) in r[1..] {
      assert cs[i] in cs;
    }
    forall a, b | 1 <= a < b < |r| ensures FirstIndex(cs, r[a]) < FirstIndex(cs, r[b]) {
      assert r[a] == Dedupe(cs)[a - 1] && r[b] == Dedupe(cs)[b - 1];
    }
  }

  /** The filter predicate: every card under `'all'`, otherwise the cards of that category. */
  predicate ShouldShow(activeFilter: string, cert: Certificate) {
    activeFilter == "all" || CategoryOf(cert) == activeFilter
  }

  /** Every category tab after `'all'` shows at least one certificate. */
  lemma EveryTabShowsACertificate(certs: seq<Certificate>, k: nat)
    requires 1 <= k < |Categories(certs)|
    ensures exists i :: 0 <= i < |certs| && ShouldShow(Categories(certs)[k], certs[i])
  {
    CategoriesSpec(certs);
  }

  /** A filter that is neither `'all'` nor a derived category shows no certificate. */
  lemma UnknownFilterShowsNothing(certs: seq<Certificate>, activeFilter: string)
    requires activeFilter != "all" && activeFilter !in Categories(certs)
    ensures forall i :: 0 <= i < |certs| ==> !ShouldShow(activeFilter, certs[i])
  {
    CategoriesSpec(certs);
  }

  datatype CardState = CardState(opacity: real, scale: real)

  /** The animation target of a card: full and unscaled when shown, faded and shrunk when not. */
  function CardTarget(shown: bool): (s: CardState)
    ensures shown <==> s.opacity == 1.0
    ensures shown <==> s.scale == 1.0
    ensures !shown ==> s.opacity < 1.0 && s.scale < 1.0
  {
    if shown then CardState(1.0, 1.0) else CardState(0.3, 0.9)
  }

  /** `'CERT-' + String(index + 1).padStart(4, '0')` */
  function GeneratedId(index: nat): (id: string)
    ensures |id| >= 9 && id[..5] == "CERT-"
    ensures |id| == 5 + (if |NatToString(index + 1)| >= 4 then |NatToString(index + 1)| else 4)
    ensures forall k :: 5 <= k < |id| ==> IsDigit(id[k])
    ensures DecimalValue(id[5..]) == index + 1
  {
    var padded := PadStart(NatToString(index + 1), 4, '0');
    PaddedNumber(index + 1, 4);
    var id := "CERT-" + padded;
    assert id[5..] == padded;
    id
  }

  /**
   * The id a card shows: its `credentialId`, or `CERT-` and its 1-based position padded
   * with zeros to four digits (a longer number is kept whole).
   */
  function CredentialId(cert: Certificate, index: nat): (id: string)
    ensures cert.credentialId.Some? && cert.credentialId.value != "" ==> id == cert.credentialId.value
    ensures cert.credentialId.None? || cert.credentialId == Some("") ==> id == GeneratedId(index)
  {
    OrElse(cert.credentialId, GeneratedId(index))
  }

  /** The first card's generated id. */
  lemma FirstGeneratedId(cert: Certificate)
    requires cert.credentialId.None?
    ensures CredentialId(cert, 0) == "CERT-0001"
  {
  }

  /** The label of a tab: `'All'` for `'all'`, otherwise the category itself. */
  function TabLabel(category: string): (l: string)
    ensures category == "all" ==> l == "All"
    ensures category != "all" ==> l == category
  {
    if category == "all" then "All" else category
  }

  /** A card's category badge: `cert.category || 'Professional'`. */
  function DisplayCategory(cert: Certificate): (s: string)
    ensures cert.category.None? ==> s == "Professional"
    ensures s != "Professional" ==> cert.category == Some(s)
  {
    OrElse(cert.category, "Professional")
  }

  /** A card's date: `cert.date || 'Completed'`. */
  function DisplayDate(cert: Certificate): (s: string)
    ensures cert.date.None? ==> s == "Completed"
    ensures s != "Completed" ==> cert.date == Some(s)
  {
    OrElse(cert.date, "Completed")
  }

  /**
   * Unless some certificate's category is itself `'all'`, at most one tab is selected, and
   * exactly one when the filter is a listed category.
   */
  lemma SelectedCertificateTab(certs: seq<Certificate>, activeFilter: string)
    requires forall i :: 0 <= i < |certs| ==> CategoryOf(certs[i]) != "all"
    ensures |SelectedTabs(Categories(certs), activeFilter)| <= 1
    ensures |SelectedTabs(Categories(certs), activeFilter)| == 1 <==> activeFilter in Categories(certs)
  {
    var cs := CertCategories(certs);
    CategoriesSpec(certs);
    var r := Categories(certs);
    assert "all" !in r[1..];
    assert NoDuplicates(r);
    SelectedTabsOfDistinct(r, activeFilter);
  }

  /** A certificate whose category is `'all'` yields two `'all'` tabs, both selected at start. */
  lemma AllCategoryDuplicatesTab(cert: Certificate)
    requires cert.category == Some("all")
    ensures Categories([cert]) == ["all", "all"]
    ensures SelectedTabs(Categories([cert]), "all") == {0, 1}
  {
    assert CertCategories([cert]) == ["all"];
    assert Dedupe(["all"]) == ["all"];
  }

  /** No shipped certificate has a category, so the tabs are `'all'` and `'professional'`. */
  lemma ShippedCategories()
    ensures Categories(Certificates) == ["all", "professional"]
  {
    DedupeOfConstant(CertCategories(Certificates), "professional");
  }
}
