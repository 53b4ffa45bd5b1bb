/** The field-extraction rules applied to a rendered detail page, and the detail crawl that
    wraps them. The DOM is abstracted into the regions the rules query; a region is a
    sequence of items, each with an optional caption text and an optional value text. */
module Extraction {
  import opened Wrappers
  import opened Text
  import opened Records

  /** One labelled block of a region: the caption (label) element's text and the value element's
      text (or markup), each `None` when that sub-element is missing. */
  datatype Item = Item(caption: Option<string>, value: Option<string>)

  /** How a label is compared with the keyword: as read (attribute items, content groups),
      or trimmed first (the salary/location header items). */
  datatype LabelMode = Raw | Trimmed

  /** The `#phone-employer` element: its `data-phone` attribute, if any, and its text. */
  datatype PhoneElement = PhoneElement(dataPhone: Option<string>, text: string)

  /** A rendered detail page, reduced to what the rules read. Single elements are `None`
      when the selector matches nothing. `attrItems` lists every `.attr-item` of the page
      in document order, `headItems` those under `.attr-item-head`; the two are read through
      different sub-elements and are given as independent views. */
  datatype DetailPage = DetailPage(
    jobTitle: Option<string>,
    companyName: Option<string>,
    headItems: seq<Item>,
    attrItems: seq<Item>,
    contentGroups: seq<Item>,
    companyLogoSrc: Option<string>,
    companySizeText: Option<string>,
    companyHeadquartersText: Option<string>,
    contactNameText: Option<string>,
    showPhone: Option<string>,
    phoneEmployer: Option<PhoneElement>)

  /** The site-specific label keywords, one per labelled field. */
  datatype LabelTable = LabelTable(
    salary: string,
    location: string,
    experience: string,
    level: string,
    workingForm: string,
    deadline: string,
    shift: string,
    degree: string,
    age: string,
    quantity: string,
    field: string,
    description: string,
    requirement: string,
    benefit: string)

  /** The keywords the crawler uses for its site. */
  const SiteLabels := LabelTable(
    "Mức lương", "Địa điểm", "Kinh nghiệm", "Cấp bậc", "Hình thức", "Hạn nộp", "Ca làm",
    "Trình độ", "Độ tuổi", "Số lượng", "Ngành nghề", "Mô tả", "Yêu cầu", "Quyền lợi")

  /** Whether an item's caption contains the keyword (case-sensitive); an item without a
      caption never matches. */
  predicate CaptionHas(item: Item, keyword: string, mode: LabelMode) {
    match item.caption
    case None => false
    case Some(c) => Contains(if mode == Trimmed then Trim(c) else c, keyword)
  }

  /** Item `i` is the first item whose caption contains the keyword. */
  predicate IsFirstMatch(items: seq<Item>, i: int, keyword: string, mode: LabelMode) {
    0 <= i < |items| && CaptionHas(items[i], keyword, mode)
    && forall j :: 0 <= j < i ==> !CaptionHas(items[j], keyword, mode)
  }

  predicate NoMatch(items: seq<Item>, keyword: string, mode: LabelMode) {
    forall j :: 0 <= j < |items| ==> !CaptionHas(items[j], keyword, mode)
  }

  /** `Array.from(items).find(...)` as an index: the first matching item, or `None`. */
  function FindFirst(items: seq<Item>, keyword: string, mode: LabelMode): (r: Option<nat>)
    ensures r.Some? ==> IsFirstMatch(items, r.value, keyword, mode)
    ensures r.None? ==> NoMatch(items, keyword, mode)
  {
    if items == [] then None
    else if CaptionHas(items[0], keyword, mode) then Some(0)
    else match FindFirst(items[1..], keyword, mode)
      case None => None
      case Some(i) => Some(i + 1)
  }

  /** `el?.textContent?.trim() || ''`: a present element's trimmed text, `""` otherwise. */
  function TextOf(e: Option<string>): (r: string)
    ensures e.None? ==> r == ""
    ensures e.Some? ==> r == Trim(e.value)
  {
    match e
    case None => ""
    case Some(t) => Trim(t)
  }

  /** The shared lookup of `getAttr`, `getHtmlContent` and `getSalaryAndLocation`: the trimmed
      value of the first item whose caption contains the keyword. A first match without a
      value element gives `""` even when a later item would match; no match gives `""`. */
  function LookupByCaption(items: seq<Item>, keyword: string, mode: LabelMode): (r: string)
    ensures forall i :: IsFirstMatch(items, i, keyword, mode) ==> r == TextOf(items[i].value)
    ensures NoMatch(items, keyword, mode) ==> r == ""
  {
    match FindFirst(items, keyword, mode)
    case None => ""
    case Some(i) =>
      assert forall j :: IsFirstMatch(items, j, keyword, mode) ==> j == i by {
        forall j | IsFirstMatch(items, j, keyword, mode)
          ensures j == i
        {
          FirstMatchUnique(items, i, j, keyword, mode);
        }
      }
      TextOf(items[i].value)
  }

  /** There is at most one first match. */
  lemma FirstMatchUnique(items: seq<Item>, i: int, j: int, keyword: string, mode: LabelMode)
    requires IsFirstMatch(items, i, keyword, mode) && IsFirstMatch(items, j, keyword, mode)
    ensures i == j
  {
    assert !(i < j) && !(j < i);
  }

  /** `v` is what the caption rule for `keyword` reads from `items`: the trimmed value of the
      first item whose caption contains the keyword, or `""` when no caption does. */
  predicate ReadsRule(items: seq<Item>, keyword: string, mode: LabelMode, v: string) {
    && (forall i :: 0 <= i < |items| && IsFirstMatch(items, i, keyword, mode) ==> v == TextOf(items[i].value))
    && (NoMatch(items, keyword, mode) ==> v == "")
  }

  /** The caption rule determines its value: two strings it both reads are the same. */
  lemma ReadsRuleUnique(items: seq<Item>, keyword: string, mode: LabelMode, v: string, w: string)
    requires ReadsRule(items, keyword, mode, v) && ReadsRule(items, keyword, mode, w)
    ensures v == w
  {
    match FindFirst(items, keyword, mode)
    case None =>
    case Some(i) => assert IsFirstMatch(items, i, keyword, mode);
  }

  /** A later match never shows through a first match that has no value element. */
  lemma ShadowedByValuelessMatch(items: seq<Item>, i: nat, keyword: string, mode: LabelMode)
    requires IsFirstMatch(items, i, keyword, mode) && items[i].value.None?
    ensures LookupByCaption(items, keyword, mode) == ""
  {
  }

  /** Items after the first match do not influence the result. */
  lemma LookupIgnoresLaterItems(items: seq<Item>, rest: seq<Item>, i: nat, keyword: string, mode: LabelMode)
    requires IsFirstMatch(items, i, keyword, mode)
    ensures LookupByCaption(items + rest, keyword, mode) == LookupByCaption(items, keyword, mode)
  {
    assert IsFirstMatch(items + rest, i, keyword, mode);
  }

  /** `a || b || ... || ''`: the first non-empty candidate, or `""` when every one is empty. */
  function FirstNonEmpty(candidates: seq<string>): (r: string)
    ensures r == "" <==> forall k :: 0 <= k < |candidates| ==> candidates[k] == ""
    ensures r != "" ==> exists k :: 0 <= k < |candidates| && candidates[k] == r
                                    && forall j :: 0 <= j < k ==> candidates[j] == ""
  {
    if candidates == [] then ""
    else if candidates[0] != "" then candidates[0]
    else
      var r := FirstNonEmpty(candidates[1..]);
      assert forall k :: 1 <= k < |candidates| ==> candidates[k] == candidates[1..][k - 1];
      r
  }

  /** The chain stops at the first non-empty candidate, whatever follows it. */
  lemma FirstNonEmptyStops(candidates: seq<string>, k: nat)
    requires k < |candidates| && candidates[k] != ""
    requires forall j :: 0 <= j < k ==> candidates[j] == ""
    ensures FirstNonEmpty(candidates) == candidates[k]
  {
    var r := FirstNonEmpty(candidates);
    var k' :| 0 <= k' < |candidates| && candidates[k'] == r && forall j :: 0 <= j < k' ==> candidates[j] == "";
    assert k' == k;
  }

  /** The three renderings of the contact phone, in the order they are tried: the
      `data-phone` of `.show-phone[data-phone]`, the `data-phone` of `#phone-employer`, and
      the trimmed text of `#phone-employer`; a missing element or attribute reads as `""`. */
  function PhoneCandidates(page: DetailPage): seq<string> {
    match page.phoneEmployer
    case None => [page.showPhone.GetOr(""), "", ""]
    case Some(e) => [page.showPhone.GetOr(""), e.dataPhone.GetOr(""), Trim(e.text)]
  }

  /** `contactPhone`: the first truthy rendering, else `""`. */
  function ContactPhone(page: DetailPage): (r: string)
    ensures r == "" <==> forall k :: 0 <= k < 3 ==> PhoneCandidates(page)[k] == ""
    ensures r != "" ==> r in PhoneCandidates(page)
  {
    FirstNonEmpty(PhoneCandidates(page))
  }

  /** The contact phone falls back in order: the `.show-phone` attribute when non-empty,
      else the `#phone-employer` attribute when non-empty, else that element's trimmed text,
      else `""`. The attribute values are returned untrimmed, and an empty one falls through. */
  lemma ContactPhoneFallback(page: DetailPage)
    ensures page.showPhone.GetOr("") != "" ==> ContactPhone(page) == page.showPhone.value
    ensures page.showPhone.GetOr("") == "" && page.phoneEmployer.Some?
            && page.phoneEmployer.value.dataPhone.GetOr("") != ""
            ==> ContactPhone(page) == page.phoneEmployer.value.dataPhone.value
    ensures page.showPhone.GetOr("") == "" && page.phoneEmployer.Some?
            && page.phoneEmployer.value.dataPhone.GetOr("") == ""
            ==> ContactPhone(page) == Trim(page.phoneEmployer.value.text)
    ensures page.showPhone.GetOr("") == "" && page.phoneEmployer.None? ==> ContactPhone(page) == ""
  {
    var show := page.showPhone.GetOr("");
    match page.phoneEmployer
    case None =>
      FirstNonEmptyOfThree(show, "", "");
    case Some(e) =>
      FirstNonEmptyOfThree(show, e.dataPhone.GetOr(""), Trim(e.text));
  }

  /** The chain over three candidates, spelled out. */
  lemma FirstNonEmptyOfThree(a: string, b: string, c: string)
    ensures FirstNonEmpty([a, b, c]) == if a != "" then a else if b != "" then b else c
  {
    assert [a, b, c][1..] == [b, c] && [b, c][1..] == [c] && [c][1..] == [];
    assert FirstNonEmpty([c]) == c;
    assert FirstNonEmpty([b, c]) == if b != "" then b else c;
  }

  /** The extraction closure: every field comes from its own region by its own rule, and a
      missing element only empties that field. */
  function Extract(page: DetailPage, labels: LabelTable): (r: DetailFields)
    ensures r.title == TextOf(page.jobTitle) && r.company == TextOf(page.companyName)
    ensures ReadsRule(page.headItems, labels.salary, Trimmed, r.salary)
    ensures ReadsRule(page.headItems, labels.location, Trimmed, r.location)
    ensures ReadsRule(page.attrItems, labels.experience, Raw, r.experience)
    ensures ReadsRule(page.attrItems, labels.level, Raw, r.level)
    ensures ReadsRule(page.attrItems, labels.workingForm, Raw, r.workingForm)
    ensures ReadsRule(page.attrItems, labels.deadline, Raw, r.deadline)
    ensures ReadsRule(page.attrItems, labels.shift, Raw, r.shift)
    ensures ReadsRule(page.attrItems, labels.degree, Raw, r.degree)
    ensures ReadsRule(page.attrItems, labels.age, Raw, r.age)
    ensures ReadsRule(page.attrItems, labels.quantity, Raw, r.quantity)
    ensures ReadsRule(page.attrItems, labels.field, Raw, r.field)
    ensures ReadsRule(page.contentGroups, labels.description, Raw, r.description)
    ensures ReadsRule(page.contentGroups, labels.requirement, Raw, r.requirement)
    ensures ReadsRule(page.contentGroups, labels.benefit, Raw, r.benefit)
    ensures page.companyLogoSrc.None? ==> r.companyLogo == ""
    ensures page.companyLogoSrc.Some? ==> r.companyLogo == page.companyLogoSrc.value
    ensures r.companySize == TextOf(page.companySizeText)
    ensures r.companyHeadquarters == TextOf(page.companyHeadquartersText)
    ensures r.contactName == TextOf(page.contactNameText)
    ensures r.contactPhone == ContactPhone(page)
  {
    DetailFields(
      title := TextOf(page.jobTitle),
      company := TextOf(page.companyName),
      salary := LookupByCaption(page.headItems, labels.salary, Trimmed),
      location := LookupByCaption(page.headItems, labels.location, Trimmed),
      experience := LookupByCaption(page.attrItems, labels.experience, Raw),
      level := LookupByCaption(page.attrItems, labels.level, Raw),
      workingForm := LookupByCaption(page.attrItems, labels.workingForm, Raw),
      deadline := LookupByCaption(page.attrItems, labels.deadline, Raw),
      shift := LookupByCaption(page.attrItems, labels.shift, Raw),
      degree := LookupByCaption(page.attrItems, labels.degree, Raw),
      age := LookupByCaption(page.attrItems, labels.age, Raw),
      quantity := LookupByCaption(page.attrItems, labels.quantity, Raw),
      field := LookupByCaption(page.attrItems, labels.field, Raw),
      description := LookupByCaption(page.contentGroups, labels.description, Raw),
      requirement := LookupByCaption(page.contentGroups, labels.requirement, Raw),
      benefit := LookupByCaption(page.contentGroups, labels.benefit, Raw),
      companyLogo := page.companyLogoSrc.GetOr(""),
      companySize := TextOf(page.companySizeText),
      companyHeadquarters := TextOf(page.companyHeadquartersText),
      contactName := TextOf(page.contactNameText),
      contactPhone := ContactPhone(page))
  }

  /** A page with no content group for the benefit label yields an empty benefit, and the
      content groups affect no field other than description, requirement and benefit. */
  lemma MissingBenefitGroup(page: DetailPage, labels: LabelTable, groups: seq<Item>)
    requires NoMatch(page.contentGroups, labels.benefit, Raw)
    ensures Extract(page, labels).benefit == ""
    ensures var other := page.(contentGroups := groups);
            Extract(other, labels).(description := "", requirement := "", benefit := "")
            == Extract(page, labels).(description := "", requirement := "", benefit := "")
  {
  }

  /** The `headItems` view (captions from `.text span:last-child`, values from `.value span`)
      is read only by salary and location: replacing that view changes no other field. The
      view is a parameter independent of `attrItems`, although on a page the header elements
      are also `.attr-item`s. */
  lemma HeadItemsFrame(page: DetailPage, labels: LabelTable, items: seq<Item>)
    ensures Extract(page.(headItems := items), labels).(salary := "", location := "")
            == Extract(page, labels).(salary := "", location := "")
  {
  }

  /** The `attrItems` view (captions from `.name-attr`, values from `.text-attr`) is read only
      by the nine attribute fields: replacing that view changes no other field. The view is a
      parameter independent of `headItems`, although on a page it includes the header
      elements. */
  lemma AttrItemsFrame(page: DetailPage, labels: LabelTable, items: seq<Item>)
    ensures Extract(page.(attrItems := items), labels).(experience := "", level := "", workingForm := "",
              deadline := "", shift := "", degree := "", age := "", quantity := "", field := "")
            == Extract(page, labels).(experience := "", level := "", workingForm := "",
              deadline := "", shift := "", degree := "", age := "", quantity := "", field := "")
  {
  }

  /** A page whose every element is missing yields a record of empty strings: extraction
      degrades field by field and never fails. */
  lemma EmptyPageGivesEmptyFields(labels: LabelTable)
    ensures Extract(DetailPage(None, None, [], [], [], None, None, None, None, None, None), labels) == EmptyDetails
  {
  }

  /** The extraction closure with the site's own label keywords. */
  function SiteExtract(page: DetailPage): DetailFields {
    Extract(page, SiteLabels)
  }

  /** Loading a detail page: `None` when navigation fails or times out. */
  type DetailFetch = string -> Option<DetailPage>

  /** `crawlJobDetail(link, jobType)`: fails exactly when the page cannot be loaded; otherwise
      the fields `extract` (the extraction closure) reads from the page, with the caller's
      link and job type. */
  function CrawlDetail(fetch: DetailFetch, extract: DetailPage -> DetailFields, link: string, jobType: string): (r: Option<JobRecord>)
    ensures r.Some? <==> fetch(link).Some?
    ensures r.Some? ==> r.value.link == link && r.value.jobType == jobType
                        && DetailsOf(r.value) == extract(fetch(link).value)
  {
    match fetch(link)
    case None => None
    case Some(page) => Some(Assemble(link, jobType, extract(page)))
  }
}
