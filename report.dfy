/** The report of one validation job: the five category cards, the bucket of
    the selected category narrowed by a case-insensitive search, ten rows a
    page, and the export of a bucket as a text file. */
module Report {
  import opened Wrappers
  import opened Seqs
  import opened Text
  import opened Types
  import opened Upload

  // ---------------------------------------------------------------------------
  // The category table and the icon lookup
  // ---------------------------------------------------------------------------

  /** The cards in display order: valid, invalid, risky, spam traps, disposable. */
  const Categories: seq<ValidationCategory> := [
    ValidationCategory(Valid, "Valid Emails", "bg-green-100 text-green-800",
      "These emails are valid and safe to send to", "mail"),
    ValidationCategory(Invalid, "Invalid Emails", "bg-red-100 text-red-800",
      "These emails are invalid or non-existent", "x-circle"),
    ValidationCategory(Risky, "Risky Emails", "bg-yellow-100 text-yellow-800",
      "These emails might have deliverability issues", "alert-triangle"),
    ValidationCategory(SpamTraps, "Spam Traps", "bg-purple-100 text-purple-800",
      "Known spam trap addresses", "shield"),
    ValidationCategory(Disposable, "Disposable Emails", "bg-blue-100 text-blue-800",
      "Temporary email addresses", "trash-2")
  ]

  /** The icon components the cards can show. */
  datatype Icon = Mail | XCircle | AlertTriangle | Shield | Trash2

  /** The icon name that selects each icon. */
  function IconName(icon: Icon): string {
    match icon
    case Mail => "mail"
    case XCircle => "x-circle"
    case AlertTriangle => "alert-triangle"
    case Shield => "shield"
    case Trash2 => "trash-2"
  }

  /** getIconComponent: the five known names, and Mail for any other. */
  function GetIconComponent(iconName: string): Icon {
    if iconName == "mail" then Mail
    else if iconName == "x-circle" then XCircle
    else if iconName == "alert-triangle" then AlertTriangle
    else if iconName == "shield" then Shield
    else if iconName == "trash-2" then Trash2
    else Mail
  }

  /** Every icon's name selects that icon. */
  lemma IconRoundTrip(icon: Icon)
    ensures GetIconComponent(IconName(icon)) == icon
  {
  }

  /** A name selects an icon other than Mail exactly when it is that icon's name;
      every unknown name falls back to Mail. */
  lemma IconLookup(iconName: string)
    ensures GetIconComponent(iconName) != Mail ==> IconName(GetIconComponent(iconName)) == iconName
    ensures (forall icon: Icon :: IconName(icon) != iconName) ==> GetIconComponent(iconName) == Mail
  {
    if GetIconComponent(iconName) == Mail && iconName != "mail" {
      assert IconName(Mail) != iconName;
    }
  }

  /** The five cards have five different types and show five different icons. */
  lemma CategoriesDistinct()
    ensures |Categories| == 5
    ensures forall j, k :: 0 <= j < k < 5 ==> Categories[j].kind != Categories[k].kind
    ensures forall j, k :: 0 <= j < k < 5 ==>
      GetIconComponent(Categories[j].icon) != GetIconComponent(Categories[k].icon)
  {
  }

  /** The position of each category type's card. */
  function CardIndex(t: CategoryType): (k: nat)
    ensures k < |Categories| && Categories[k].kind == t
  {
    match t
    case Valid => 0
    case Invalid => 1
    case Risky => 2
    case SpamTraps => 3
    case Disposable => 4
  }

  /** `categories.find(c => c.type === name)`: the first card whose type is named `name`. */
  function FindCategory(name: string): (c: Option<ValidationCategory>)
    ensures c.Some? ==> c.value in Categories && TypeName(c.value.kind) == name
  {
    FindIn(Categories, name)
  }

  function FindIn(cards: seq<ValidationCategory>, name: string): (c: Option<ValidationCategory>)
    ensures c.Some? ==> c.value in cards && TypeName(c.value.kind) == name
    ensures c.None? ==> forall k :: 0 <= k < |cards| ==> TypeName(cards[k].kind) != name
  {
    if cards == [] then None
    else if TypeName(cards[0].kind) == name then Some(cards[0])
    else FindIn(cards[1..], name)
  }

  /** The title lookup finds a card exactly for the five type names. */
  lemma FindCategoryExactly(name: string)
    ensures FindCategory(name).Some? <==> ParseCategoryType(name).Some?
  {
    if ParseCategoryType(name).Some? {
      var k := CardIndex(ParseCategoryType(name).value);
      assert TypeName(Categories[k].kind) == name;
    }
    if FindCategory(name).Some? {
      CategoryNamesRoundTrip(FindCategory(name).value.kind);
    }
  }

  // ---------------------------------------------------------------------------
  // The bucket of a category
  // ---------------------------------------------------------------------------

  /** getCategoryEmails: the field named by `category`, and [] for any other string. */
  function GetCategoryEmails(result: ValidationResult, category: string): seq<string> {
    if category == "valid" then result.valid
    else if category == "invalid" then result.invalid
    else if category == "risky" then result.risky
    else if category == "spamTraps" then result.spamTraps
    else if category == "disposable" then result.disposable
    else []
  }

  /** The lookup returns the bucket of the type the string names, and [] when it
      names none. */
  lemma CategoryEmailsLookup(result: ValidationResult, category: string)
    ensures ParseCategoryType(category).Some? ==>
      GetCategoryEmails(result, category) == Bucket(result, ParseCategoryType(category).value)
    ensures ParseCategoryType(category).None? ==> GetCategoryEmails(result, category) == []
  {
  }

  /** Each card's bucket is the field of its type. */
  lemma CardBucket(result: ValidationResult, t: CategoryType)
    ensures GetCategoryEmails(result, TypeName(t)) == Bucket(result, t)
  {
  }

  // ---------------------------------------------------------------------------
  // The search filter
  // ---------------------------------------------------------------------------

  /** `email.toLowerCase().includes(search.toLowerCase())`. */
  predicate Matches(email: string, search: string) {
    Contains(Lower(email), Lower(search))
  }

  /** The filter callback for a given search text; the index is ignored. */
  function MatchesSearch(search: string): (string, nat) -> bool {
    (email: string, i: nat) => Matches(email, search)
  }

  /** The addresses of a bucket that match the search text. */
  function FilterEmails(emails: seq<string>, search: string): seq<string> {
    Filter(emails, MatchesSearch(search))
  }

  /** The filtered list keeps bucket order and holds exactly the matching
      addresses, each as many times as the bucket does. */
  lemma FilterEmailsSpec(emails: seq<string>, search: string)
    ensures IsSubsequence(FilterEmails(emails, search), emails)
    ensures forall e :: e in FilterEmails(emails, search) <==> e in emails && Matches(e, search)
    ensures forall e ::
              multiset(FilterEmails(emails, search))[e] ==
              if Matches(e, search) then multiset(emails)[e] else 0
  {
    FilterIsSubsequence(emails, MatchesSearch(search));
    FilterMembers(emails, MatchesSearch(search));
    FilterMultiset(emails, MatchesSearch(search), (e: string) => Matches(e, search));
  }

  /** A search that matches no address leaves nothing. */
  lemma NoMatchLeavesNothing(emails: seq<string>, search: string)
    requires forall e :: e in emails ==> !Matches(e, search)
    ensures FilterEmails(emails, search) == []
  {
    forall i | 0 <= i < |emails| ensures !MatchesSearch(search)(emails[i], i) {
      assert emails[i] in emails;
    }
    FilterDropsAll(emails, MatchesSearch(search));
  }

  /** An empty search keeps the whole bucket. */
  lemma EmptySearchKeepsAll(emails: seq<string>)
    ensures FilterEmails(emails, "") == emails
  {
    forall i | 0 <= i < |emails| ensures MatchesSearch("")(emails[i], i) {
      assert Lower(emails[i])[..0] == [];
    }
    FilterKeepsAll(emails, MatchesSearch(""));
  }

  /** Matching ignores the case of ASCII letters on either side. */
  lemma MatchesIgnoresCase(email: string, search: string)
    ensures Matches(Lower(email), search) == Matches(email, search)
    ensures Matches(email, Lower(search)) == Matches(email, search)
  {
    LowerIdempotent(email);
    LowerIdempotent(search);
  }

  // ---------------------------------------------------------------------------
  // Pagination
  // ---------------------------------------------------------------------------

  const ItemsPerPage: nat := 10

  /** `Math.ceil(count / itemsPerPage)`. */
  function TotalPages(count: nat): nat {
    (count + ItemsPerPage - 1) / ItemsPerPage
  }

  /** TotalPages is the least number of pages of ten that hold `count` rows; it is
      0 for no rows. */
  lemma TotalPagesIsCeiling(count: nat)
    ensures TotalPages(count) * ItemsPerPage >= count
    ensures TotalPages(count) > 0 ==> (TotalPages(count) - 1) * ItemsPerPage < count
    ensures TotalPages(count) == 0 <==> count == 0
  {
  }

  /** `filtered.slice((page - 1) * 10, page * 10)`, for any page number. */
  function PageOf(filtered: seq<string>, page: int): seq<string> {
    Slice(filtered, (page - 1) * ItemsPerPage, page * ItemsPerPage)
  }

  /** No page, whatever its number, shows more than ten rows. */
  lemma PageAtMostTen(filtered: seq<string>, page: int)
    ensures |PageOf(filtered, page)| <= ItemsPerPage
  {
    var n := |filtered|;
    var from := SliceBound((page - 1) * ItemsPerPage, n);
    var to := SliceBound(page * ItemsPerPage, n);
    if from < to {
      assert |PageOf(filtered, page)| == to - from;
    }
  }

  function Min(a: int, b: int): int {
    if a < b then a else b
  }

  /** A page within 1..TotalPages is the non-empty run of rows from (page - 1) * 10
      up to page * 10 or the end. */
  lemma PageInRange(filtered: seq<string>, page: int)
    requires 1 <= page <= TotalPages(|filtered|)
    ensures PageOf(filtered, page) ==
      filtered[(page - 1) * ItemsPerPage..Min(page * ItemsPerPage, |filtered|)]
    ensures PageOf(filtered, page) != []
  {
    TotalPagesIsCeiling(|filtered|);
  }

  /** Page 0 and every page past the last one show nothing: this is what a stale
      page number shows after the category or the search text changes. */
  lemma PageOutOfRange(filtered: seq<string>, page: int)
    requires page == 0 || page > TotalPages(|filtered|)
    ensures PageOf(filtered, page) == []
  {
    TotalPagesIsCeiling(|filtered|);
    var n := |filtered|;
    if page > TotalPages(n) {
      assert (page - 1) * ItemsPerPage >= TotalPages(n) * ItemsPerPage;
    }
  }

  /** Row `i` of the filtered list is row `i % 10` of page `i / 10 + 1`. */
  lemma RowOnPage(filtered: seq<string>, i: nat)
    requires i < |filtered|
    ensures |PageOf(filtered, i / ItemsPerPage + 1)| > i % ItemsPerPage
    ensures PageOf(filtered, i / ItemsPerPage + 1)[i % ItemsPerPage] == filtered[i]
  {
    var page := i / ItemsPerPage + 1;
    TotalPagesIsCeiling(|filtered|);
    PageInRange(filtered, page);
  }

  /** Pages 1..k, one after the other. */
  function PagesUpTo(filtered: seq<string>, k: nat): seq<string>
    decreases k
  {
    if k == 0 then [] else PagesUpTo(filtered, k - 1) + PageOf(filtered, k)
  }

  /** Pages 1..k hold the first min(10k, n) rows. */
  lemma {:induction false} PagesUpToPrefix(filtered: seq<string>, k: nat)
    requires k <= TotalPages(|filtered|)
    ensures PagesUpTo(filtered, k) == filtered[..Min(k * ItemsPerPage, |filtered|)]
    decreases k
  {
    if k > 0 {
      PagesUpToPrefix(filtered, k - 1);
      PageInRange(filtered, k);
      var a := (k - 1) * ItemsPerPage;
      var b := Min(k * ItemsPerPage, |filtered|);
      assert filtered[..a] + filtered[a..b] == filtered[..b];
    }
  }

  /** Going through every page from 1 to TotalPages shows the filtered list, in
      order, each row once. */
  lemma AllPagesShowFiltered(filtered: seq<string>)
    ensures PagesUpTo(filtered, TotalPages(|filtered|)) == filtered
  {
    PagesUpToPrefix(filtered, TotalPages(|filtered|));
    TotalPagesIsCeiling(|filtered|);
  }

  /** The Previous button: `Math.max(1, p - 1)`. */
  function PreviousPage(p: int): int {
    if 1 < p - 1 then p - 1 else 1
  }

  /** The Next button: `Math.min(totalPages, p + 1)`. */
  function NextPage(p: int, totalPages: nat): int {
    if totalPages < p + 1 then totalPages else p + 1
  }

  /** Previous never goes below 1 and steps back by one above page 1. */
  lemma PreviousClamps(p: int)
    ensures PreviousPage(p) >= 1
    ensures p > 1 ==> PreviousPage(p) == p - 1
    ensures p <= 1 ==> PreviousPage(p) == 1
  {
  }

  /** Next never goes above the page count and steps forward by one below it; with
      no pages at all it goes to page 0. */
  lemma NextClamps(p: int, totalPages: nat)
    ensures NextPage(p, totalPages) <= totalPages
    ensures p < totalPages ==> NextPage(p, totalPages) == p + 1
    ensures p >= totalPages ==> NextPage(p, totalPages) == totalPages
    ensures totalPages == 0 && p >= 0 ==> NextPage(p, totalPages) == 0
  {
  }

  /** Inside 1..totalPages the two buttons stay inside it and undo each other. */
  lemma PreviousNextInverse(p: int, totalPages: nat)
    requires 1 <= p <= totalPages
    ensures 1 <= PreviousPage(p) <= totalPages && 1 <= NextPage(p, totalPages) <= totalPages
    ensures p < totalPages ==> PreviousPage(NextPage(p, totalPages)) == p
    ensures p > 1 ==> NextPage(PreviousPage(p), totalPages) == p
  {
  }

  // ---------------------------------------------------------------------------
  // Export
  // ---------------------------------------------------------------------------

  /** The text of the downloaded file: the category's addresses joined by newlines. */
  function ExportText(result: ValidationResult, category: string): string {
    Join(GetCategoryEmails(result, category), "\n")
  }

  const ExportSuffix: string := "-emails.txt"

  /** The name of the downloaded file. */
  function ExportFileName(category: string): string {
    category + ExportSuffix
  }

  /** The category a file name was made from, when it has the export suffix. */
  function CategoryOfFileName(name: string): Option<string> {
    if |name| >= |ExportSuffix| && name[|name| - |ExportSuffix|..] == ExportSuffix
    then Some(name[..|name| - |ExportSuffix|])
    else None
  }

  /** The file name gives back the category it was made from. */
  lemma FileNameRoundTrip(category: string)
    ensures CategoryOfFileName(ExportFileName(category)) == Some(category)
  {
    var name := ExportFileName(category);
    assert name[..|category|] == category;
    assert name[|category|..] == ExportSuffix;
  }

  /** An empty bucket exports the empty text. */
  lemma EmptyBucketExportsEmpty(result: ValidationResult, category: string)
    requires GetCategoryEmails(result, category) == []
    ensures ExportText(result, category) == ""
  {
  }

  /** Splitting the export text on '\n' gives back the bucket when the bucket is
      non-empty and no address contains a newline. */
  lemma ExportSplitsBack(result: ValidationResult, category: string)
    requires GetCategoryEmails(result, category) != []
    requires forall k :: 0 <= k < |GetCategoryEmails(result, category)| ==>
      '\n' !in GetCategoryEmails(result, category)[k]
    ensures SplitOn(ExportText(result, category), '\n') == GetCategoryEmails(result, category)
  {
    SplitJoin(GetCategoryEmails(result, category), '\n');
  }

  /** Uploading an exported file again yields the same address list, when the
      bucket holds clean addresses (as every address parsed from an upload is). */
  lemma ExportReuploads(result: ValidationResult, category: string)
    requires forall k :: 0 <= k < |GetCategoryEmails(result, category)| ==>
      IsCleanAddress(GetCategoryEmails(result, category)[k])
    ensures ParseAddresses(ExportText(result, category)) == GetCategoryEmails(result, category)
  {
    ParseJoinedAddresses(GetCategoryEmails(result, category));
  }

  // ---------------------------------------------------------------------------
  // The report view
  // ---------------------------------------------------------------------------

  /** The report's view state over a fixed result. The selected category only
      ever holds a card's type, and the page number never goes below 0. */
  class ValidationReport {
    const result: ValidationResult
    var currentCategory: string
    var currentPage: int
    var search: string

    predicate Valid()
      reads this
    {
      ParseCategoryType(currentCategory).Some? && currentPage >= 0
    }

    /** The addresses of the selected category that match the search. */
    function Filtered(): seq<string>
      reads this
    {
      FilterEmails(GetCategoryEmails(result, currentCategory), search)
    }

    function PageCount(): nat
      reads this
    {
      TotalPages(|Filtered()|)
    }

    /** The rows on screen. */
    function CurrentEmails(): seq<string>
      reads this
    {
      PageOf(Filtered(), currentPage)
    }

    /** The initial view: the valid category, page 1, no search. */
    constructor (result: ValidationResult)
      ensures Valid()
      ensures this.result == result
      ensures currentCategory == "valid" && currentPage == 1 && search == ""
    {
      this.result := result;
      currentCategory := "valid";
      currentPage := 1;
      search := "";
    }

    /** A click on card `k` selects its category; the page number is kept. */
    method SelectCategory(k: nat)
      requires Valid() && k < |Categories|
      modifies this
      ensures Valid()
      ensures currentCategory == TypeName(Categories[k].kind)
      ensures currentPage == old(currentPage) && search == old(search)
    {
      CategoryNamesRoundTrip(Categories[k].kind);
      currentCategory := TypeName(Categories[k].kind);
    }

    /** Typing in the search box replaces the search text; the page number is kept. */
    method SetSearch(text: string)
      requires Valid()
      modifies this
      ensures Valid()
      ensures search == text
      ensures currentCategory == old(currentCategory) && currentPage == old(currentPage)
    {
      search := text;
    }

    /** The Previous button. */
    method OnPrevious()
      requires Valid()
      modifies this
      ensures Valid()
      ensures currentPage == PreviousPage(old(currentPage))
      ensures currentCategory == old(currentCategory) && search == old(search)
    {
      currentPage := PreviousPage(currentPage);
    }

    /** The link of page `i + 1`; links are drawn for i in 0..PageCount() - 1. */
    method OnPageLink(i: nat)
      requires Valid() && i < PageCount()
      modifies this
      ensures Valid()
      ensures currentPage == i + 1
      ensures currentCategory == old(currentCategory) && search == old(search)
    {
      currentPage := i + 1;
    }

    /** The Next button. */
    method OnNext()
      requires Valid()
      modifies this
      ensures Valid()
      ensures currentPage == NextPage(old(currentPage), old(PageCount()))
      ensures currentCategory == old(currentCategory) && search == old(search)
    {
      currentPage := NextPage(currentPage, PageCount());
    }

    /** The Download button: the text and the name of the file for the selected
        category (the search does not narrow it). */
    method Download() returns (text: string, name: string)
      requires Valid()
      ensures text == ExportText(result, currentCategory)
      ensures name == ExportFileName(currentCategory)
    {
      text := Join(GetCategoryEmails(result, currentCategory), "\n");
      name := currentCategory + "-emails.txt";
    }
  }

  // ---------------------------------------------------------------------------
  // Whole interactions with the report
  // ---------------------------------------------------------------------------

  /** Because the view's page number never goes below 0, the rows on screen are
      the plain run of the filtered list from (page - 1) * 10 up to page * 10, cut
      at the end, and nothing on page 0: slice never counts back from the end here. */
  lemma CurrentRowsAreSlice(view: ValidationReport)
    requires view.Valid()
    ensures var f, p := view.Filtered(), view.currentPage;
      view.CurrentEmails() == f[Min(if p == 0 then 0 else (p - 1) * ItemsPerPage, |f|)..Min(p * ItemsPerPage, |f|)]
  {
    var f, p := view.Filtered(), view.currentPage;
    if p == 0 {
      assert PageOf(f, 0) == [];
    }
  }

  /** A freshly shown report lists the first ten valid addresses. */
  method FirstView(result: ValidationResult) returns (rows: seq<string>, pages: nat)
    ensures rows == result.valid[..Min(ItemsPerPage, |result.valid|)]
    ensures pages == TotalPages(|result.valid|)
  {
    var view := new ValidationReport(result);
    EmptySearchKeepsAll(result.valid);
    rows, pages := view.CurrentEmails(), view.PageCount();
    if |result.valid| == 0 {
      PageOutOfRange(result.valid, 1);
    } else {
      TotalPagesIsCeiling(|result.valid|);
      PageInRange(result.valid, 1);
    }
  }

  /** On a report with more than ten valid addresses, going to page 2 and then
      selecting a category with fewer than eleven matching addresses leaves the
      view on page 2, which shows no row. */
  method StalePageAfterCategoryChange(result: ValidationResult, k: nat)
    returns (page: int, rows: seq<string>)
    requires |result.valid| > ItemsPerPage
    requires k < |Categories|
    requires |GetCategoryEmails(result, TypeName(Categories[k].kind))| <= ItemsPerPage
    ensures page == 2 && rows == []
  {
    var view := new ValidationReport(result);
    EmptySearchKeepsAll(result.valid);
    view.OnNext();
    view.SelectCategory(k);
    var emails := GetCategoryEmails(result, view.currentCategory);
    EmptySearchKeepsAll(emails);
    PageOutOfRange(view.Filtered(), 2);
    page, rows := view.currentPage, view.CurrentEmails();
  }

  /** With a search that matches nothing, Next moves from page 1 to page 0, and
      Previous brings it back to 1. */
  method NextWithNoPages(result: ValidationResult, text: string)
    returns (afterNext: int, afterPrevious: int)
    requires forall e :: e in result.valid ==> !Matches(e, text)
    ensures afterNext == 0 && afterPrevious == 1
  {
    var view := new ValidationReport(result);
    view.SetSearch(text);
    NoMatchLeavesNothing(result.valid, text);
    view.OnNext();
    afterNext := view.currentPage;
    view.OnPrevious();
    afterPrevious := view.currentPage;
  }
}
