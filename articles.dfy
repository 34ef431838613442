/**
 * `Article` and `parse_article`: building one record from what the
 * extractor found on an article page, or the sentinel record when the
 * page does not exist. XPath extraction is replaced by the lists of
 * strings it yields (`Page`); `strptime`, `astimezone` and `isoformat`
 * are replaced by the opaque `toIso` (None when neither date format parses).
 */
module Articles {
  import opened Wrappers
  import opened Text
  import opened Fetch

  /** Host the article is fetched from. */
  const FetchHost: string := "https://classic.newsru.com"
  /** Host the article's url is stored under. */
  const StoreHost: string := "https://www.newsru.com"
  /** The label in front of the date; `lstrip` treats it as a set of characters. */
  const PublicationLabel: string := "время публикации:"
  /** Separator of the content paragraphs: the two-character text "/n", twice, not newlines. */
  const ParagraphSeparator: string := "/n/n"
  const ImageSeparator: string := ", "
  /** Image field of an article without images. */
  const NoImages: string := "-"

  /** One row of the store, fields in the table's column order. */
  datatype Article = Article(timeStamp: string, url: string, title: string, content: string, imageUrl: string, rubric: string)

  /** What the extractor's XPath queries return on an article page. */
  datatype Page = Page(dateTexts: seq<string>, titleTexts: seq<string>, paragraphs: seq<string>, imageSrcs: seq<string>, rubricTexts: seq<string>)

  /** What the origin does when asked for one article: its responses to the GET, and the page of the 200 body. */
  datatype ArticleSource = ArticleSource(responses: seq<Response>, page: Page)

  /** The exceptions `parse_article` can raise on a fetched page. */
  datatype ParseError =
    | MissingDate     // no date node: IndexError at `[0]`
    | UnparsableDate  // neither date format parses: ValueError from `strptime`
    | MissingTitle    // no title node: IndexError at `[0]`

  function FetchUrl(urlEnd: string): string { FetchHost + urlEnd }

  function StoreUrl(urlEnd: string): string { StoreHost + urlEnd }

  /** Distinct locators give distinct stored urls, and the stored url is never the fetched one. */
  lemma StoreUrlKeysLocator(a: string, b: string)
    ensures StoreUrl(a) == StoreUrl(b) <==> a == b
    ensures StoreUrl(a) != FetchUrl(a)
  {
    if StoreUrl(a) == StoreUrl(b) {
      assert a == StoreUrl(a)[|StoreHost|..] && b == StoreUrl(b)[|StoreHost|..];
    }
    assert StoreUrl(a)[8] != FetchUrl(a)[8];
  }

  // ---------------------------------------------------------------- months

  /** Russian month names in the genitive, in the dictionary's order, with their two-digit codes. */
  const Months: seq<(string, string)> := [
    ("января", "01"), ("февраля", "02"), ("марта", "03"), ("апреля", "04"),
    ("мая", "05"), ("июня", "06"), ("июля", "07"), ("августа", "08"),
    ("сентября", "09"), ("октября", "10"), ("ноября", "11"), ("декабря", "12")]

  predicate AllCyrillic(s: string)
  {
    forall i :: 0 <= i < |s| ==> 'а' <= s[i] <= 'я'
  }

  predicate NoCyrillic(s: string)
  {
    forall i :: 0 <= i < |s| ==> !('а' <= s[i] <= 'я')
  }

  predicate AllDigits(s: string)
  {
    forall i :: 0 <= i < |s| ==> '0' <= s[i] <= '9'
  }

  /** Every name is non-empty Cyrillic, every code non-empty digits; codes are distinct. */
  lemma MonthTable()
    ensures |Months| == 12
    ensures forall k :: 0 <= k < |Months| ==> |Months[k].0| > 0 && AllCyrillic(Months[k].0)
    ensures forall k :: 0 <= k < |Months| ==> |Months[k].1| == 2 && AllDigits(Months[k].1)
    ensures forall k, l :: 0 <= k < l < |Months| ==> Months[k].1 != Months[l].1
  {
  }

  /** The shape of one row of the month table. */
  lemma MonthRow(k: nat)
    requires k < |Months|
    ensures |Months[k].0| > 0 && AllCyrillic(Months[k].0)
    ensures |Months[k].1| == 2 && AllDigits(Months[k].1)
  {
    MonthTable();
  }

  /** No month code shares a character with any month name. */
  lemma CodesAvoidNames(k: nat, l: nat)
    requires k < |Months| && l < |Months|
    ensures |Months[l].0| > 0 && |Months[k].1| > 0
    ensures Disjoint(Months[l].0, Months[k].1)
  {
    MonthRow(k);
    MonthRow(l);
    var name, code := Months[l].0, Months[k].1;
    forall i, j | 0 <= i < |name| && 0 <= j < |code|
      ensures name[i] != code[j]
    {
      assert 'а' <= name[i] && '0' <= code[j] <= '9';
    }
  }

  /** One iteration of the month loop: `if month in s: s = s.replace(month, code)`. */
  function ReplaceMonth(s: string, k: nat): string
    requires k < |Months|
  {
    MonthRow(k);
    if Contains(s, Months[k].0) then ReplaceAll(s, Months[k].0, Months[k].1) else s
  }

  /** The stamp after the first `n` iterations of the month loop. */
  function ReplaceMonthsUpTo(s: string, n: nat): string
    requires n <= |Months|
    decreases n
  {
    if n == 0 then s else ReplaceMonth(ReplaceMonthsUpTo(s, n - 1), n - 1)
  }

  function ReplaceMonths(s: string): string
  {
    ReplaceMonthsUpTo(s, |Months|)
  }

  /** After the first `n` iterations none of the first `n` month names is left. */
  lemma {:induction false} MonthsReplaced(s: string, n: nat)
    requires n <= |Months|
    ensures forall j :: 0 <= j < n ==> !Contains(ReplaceMonthsUpTo(s, n), Months[j].0)
    decreases n
  {
    if n > 0 {
      MonthsReplaced(s, n - 1);
      var before := ReplaceMonthsUpTo(s, n - 1);
      var name, code := Months[n - 1].0, Months[n - 1].1;
      if Contains(before, name) {
        CodesAvoidNames(n - 1, n - 1);
        ReplaceRemoves(before, name, code);
        forall j | 0 <= j < n - 1
          ensures !Contains(ReplaceAll(before, name, code), Months[j].0)
        {
          CodesAvoidNames(n - 1, j);
          ReplaceKeepsAbsent(before, name, code, Months[j].0);
        }
      }
    }
  }

  /** A stamp that holds no month name goes through the month loop unchanged. */
  lemma {:induction false} NoMonthsUnchanged(s: string, n: nat)
    requires n <= |Months|
    requires forall j :: 0 <= j < |Months| ==> !Contains(s, Months[j].0)
    ensures ReplaceMonthsUpTo(s, n) == s
    decreases n
  {
    if n > 0 {
      NoMonthsUnchanged(s, n - 1);
    }
  }

  /** An occurrence of a Cyrillic word after text free of Cyrillic letters lies in the rest. */
  lemma SkipPlain(a: string, b: string, q: string)
    requires |q| > 0 && 'а' <= q[0] <= 'я' && NoCyrillic(a)
    ensures Contains(a + b, q) ==> Contains(b, q)
  {
    if Contains(a + b, q) {
      ContainsSkip(a, b, q);
    }
  }

  lemma SuffixHolds(s: string, k: nat, q: string)
    requires k <= |s|
    ensures Contains(s[k..], q) ==> Contains(s, q)
  {
    if Contains(s[k..], q) {
      ContainsInSuffix(s, k, q);
    }
  }

  /**
   * The month loop over a stamp `d + name + t` that holds the k-th month
   * name once, after text free of Cyrillic letters, and no other month
   * name: the name turns into its code at iteration k and every other
   * iteration leaves the stamp alone.
   */
  lemma {:induction false} MonthLoopOneName(d: string, k: nat, t: string, n: nat)
    requires k < |Months| && n <= |Months|
    requires NoCyrillic(d) && !Contains(t, Months[k].0)
    requires forall j :: 0 <= j < |Months| && j != k ==> !Contains(d + Months[k].0 + t, Months[j].0)
    ensures ReplaceMonthsUpTo(d + Months[k].0 + t, n)
      == if n <= k then d + Months[k].0 + t else d + Months[k].1 + t
    decreases n
  {
    if n > 0 {
      var j := n - 1;
      var name, code := Months[k].0, Months[k].1;
      var stamp := d + name + t;
      MonthLoopOneName(d, k, t, j);
      MonthRow(k);
      MonthRow(j);
      if j == k {
        ContainsMiddle(d, name, t);
        ReplaceSplit(d, name, code, t);
        ReplaceAbsent(t, name, code);
      } else if j > k {
        var plain := d + code;
        assert NoCyrillic(plain) by {
          forall i | 0 <= i < |plain|
            ensures !('а' <= plain[i] <= 'я')
          {
            if i >= |d| {
              assert plain[i] == code[i - |d|];
            }
          }
        }
        assert stamp[|d| + |name|..] == t;
        SuffixHolds(stamp, |d| + |name|, Months[j].0);
        SkipPlain(plain, t, Months[j].0);
      }
    }
  }

  /**
   * The month loop turns the one month name of a stamp into its
   * two-digit code and keeps every other character in place, e.g.
   * `15 мая 2020 г., 10:30` into `15 05 2020 г., 10:30`.
   */
  lemma MonthBecomesCode(d: string, k: nat, t: string)
    requires k < |Months|
    requires NoCyrillic(d) && !Contains(t, Months[k].0)
    requires forall j :: 0 <= j < |Months| && j != k ==> !Contains(d + Months[k].0 + t, Months[j].0)
    ensures ReplaceMonths(d + Months[k].0 + t) == d + Months[k].1 + t
  {
    MonthLoopOneName(d, k, t, |Months|);
  }

  /** The month loop of `parse_article`, reassigning the stamp in place. */
  method NormaliseMonths(stamp: string) returns (out: string)
    ensures out == ReplaceMonths(stamp)
    ensures forall j :: 0 <= j < |Months| ==> !Contains(out, Months[j].0)
  {
    out := stamp;
    for k := 0 to |Months|
      invariant out == ReplaceMonthsUpTo(stamp, k)
    {
      var name, code := Months[k].0, Months[k].1;
      MonthRow(k);
      if Contains(out, name) {
        out := ReplaceAll(out, name, code);
      }
    }
    MonthsReplaced(stamp, |Months|);
  }

  // ---------------------------------------------------------------- fields

  /** The date text as the month loop receives it: stripped, then `lstrip`ped of the label's characters. */
  function StripLabel(dateText: string): string
  {
    LStripChars(Strip(dateText), PublicationLabel)
  }

  /** `lstrip` removes the label when the date follows it directly. */
  lemma StripLabelPrefix(rest: string)
    requires rest == [] || rest[0] !in PublicationLabel
    ensures LStripChars(PublicationLabel + rest, PublicationLabel) == rest
  {
    LStripPrefix(PublicationLabel, rest, c => c in PublicationLabel);
  }

  /** ... but it also eats leading text that is not the label, as long as its characters are in it. */
  lemma StripLabelIsNotPrefixRemoval()
    ensures LStripChars("вкладка", PublicationLabel) == "дка"
  {
    assert PublicationLabel[0] == 'в' && PublicationLabel[11] == 'к'
      && PublicationLabel[9] == 'л' && PublicationLabel[12] == 'а';
    assert "вкла" + "дка" == "вкладка";
    LStripPrefix("вкла", "дка", c => c in PublicationLabel);
  }

  /** The stamp handed to the date parser. */
  function NormaliseStamp(dateText: string): (r: string)
    ensures forall j :: 0 <= j < |Months| ==> !Contains(r, Months[j].0)
  {
    MonthsReplaced(StripLabel(dateText), |Months|);
    ReplaceMonths(StripLabel(dateText))
  }

  function ContentField(paragraphs: seq<string>): string
  {
    Join(ParagraphSeparator, seq(|paragraphs|, i requires 0 <= i < |paragraphs| => Strip(paragraphs[i])))
  }

  function ImageField(srcs: seq<string>): string
  {
    if |srcs| == 0 then NoImages else Join(ImageSeparator, srcs)
  }

  function RubricField(rubricTexts: seq<string>): string
  {
    if |rubricTexts| == 0 then "" else Strip(rubricTexts[0])
  }

  /** Every stripped paragraph is in the content. */
  lemma ContentHoldsParagraphs(paragraphs: seq<string>, i: nat)
    requires i < |paragraphs|
    ensures Contains(ContentField(paragraphs), Strip(paragraphs[i]))
  {
    var stripped := seq(|paragraphs|, j requires 0 <= j < |paragraphs| => Strip(paragraphs[j]));
    JoinContainsEach(ParagraphSeparator, stripped, i);
  }

  /** The image field is "-" without images, and otherwise holds every image source. */
  lemma ImageFieldHoldsSources(srcs: seq<string>)
    ensures |srcs| == 0 ==> ImageField(srcs) == NoImages
    ensures forall i :: 0 <= i < |srcs| ==> Contains(ImageField(srcs), srcs[i])
  {
    forall i | 0 <= i < |srcs|
      ensures Contains(ImageField(srcs), srcs[i])
    {
      JoinContainsEach(ImageSeparator, srcs, i);
    }
  }

  /** The rubric is empty exactly when there is no rubric or the first one is all whitespace. */
  lemma RubricFieldEmpty(rubricTexts: seq<string>)
    ensures RubricField(rubricTexts) == "" <==>
      |rubricTexts| == 0 || forall i :: 0 <= i < |rubricTexts[0]| ==> IsSpace(rubricTexts[0][i])
  {
    if |rubricTexts| > 0 {
      var s := rubricTexts[0];
      var l := LStripWhere(s, IsSpace);
      if Strip(s) == "" {
        forall i | 0 <= i < |s|
          ensures IsSpace(s[i])
        {
          if i >= |s| - |l| {
            assert s[i] == l[i - (|s| - |l|)];
          }
        }
      }
      if forall i :: 0 <= i < |s| ==> IsSpace(s[i]) {
        LStripAll(s, IsSpace);
      }
    }
  }

  // ---------------------------------------------------------------- records

  /** The record stored for an article whose page does not exist: only its url. */
  function Sentinel(urlEnd: string): Article
  {
    Article("", StoreUrl(urlEnd), "", "", "", "")
  }

  /** The record built from a fetched page, or the error `parse_article` raises. */
  function ArticleFromPage(urlEnd: string, page: Page, toIso: string -> Option<string>): (r: Result<Article, ParseError>)
    ensures r.Ok? <==> |page.dateTexts| > 0 && toIso(NormaliseStamp(page.dateTexts[0])).Some? && |page.titleTexts| > 0
    ensures r.Ok? ==> r.value.url == StoreUrl(urlEnd)
    ensures r.Ok? ==> Some(r.value.timeStamp) == toIso(NormaliseStamp(page.dateTexts[0]))
    ensures r.Err? && |page.dateTexts| == 0 ==> r.error == MissingDate
    ensures r.Err? && |page.dateTexts| > 0 && toIso(NormaliseStamp(page.dateTexts[0])).None? ==> r.error == UnparsableDate
    ensures r.Err? && |page.dateTexts| > 0 && toIso(NormaliseStamp(page.dateTexts[0])).Some? ==> r.error == MissingTitle
  {
    if |page.dateTexts| == 0 then Err(MissingDate)
    else
      var iso := toIso(NormaliseStamp(page.dateTexts[0]));
      if iso.None? then Err(UnparsableDate)
      else if |page.titleTexts| == 0 then Err(MissingTitle)
      else Ok(Article(iso.value, StoreUrl(urlEnd), Strip(page.titleTexts[0]), ContentField(page.paragraphs),
                      ImageField(page.imageSrcs), RubricField(page.rubricTexts)))
  }

  /** `parse_article`'s result once `get_url` has returned `verdict`. */
  function ArticleOutcome(urlEnd: string, verdict: Verdict, page: Page, toIso: string -> Option<string>): Result<Article, ParseError>
  {
    if verdict == NotFound then Ok(Sentinel(urlEnd)) else ArticleFromPage(urlEnd, page, toIso)
  }

  /**
   * A page that does not exist gives the sentinel: url under the store
   * host, every other field empty. Any record built carries that url.
   */
  lemma NotFoundGivesSentinel(urlEnd: string, verdict: Verdict, page: Page, toIso: string -> Option<string>)
    ensures verdict == NotFound ==>
      var r := ArticleOutcome(urlEnd, verdict, page, toIso);
      r.Ok? && r.value.url == StoreHost + urlEnd
      && r.value.timeStamp == r.value.title == r.value.content == r.value.imageUrl == r.value.rubric == ""
    ensures ArticleOutcome(urlEnd, verdict, page, toIso).Ok? ==>
      ArticleOutcome(urlEnd, verdict, page, toIso).value.url == StoreUrl(urlEnd)
  {
  }

  /** `parse_article`: fetch the page, then build the sentinel or the full record. */
  method ParseArticle(throttle: Throttle, urlEnd: string, src: ArticleSource, toIso: string -> Option<string>)
    returns (r: Result<Article, ParseError>)
    requires Terminates(src.responses)
    modifies throttle
    ensures throttle.Valid()
    ensures r == ArticleOutcome(urlEnd, FetchVerdict(src.responses), src.page, toIso)
    ensures throttle.delay == FinalDelay(src.responses)
    ensures throttle.slept == old(throttle.slept) + FetchSleeps(src.responses)
  {
    var verdict, _ := throttle.GetUrl(src.responses);
    if verdict == NotFound {
      return Ok(Sentinel(urlEnd));
    }
    var page := src.page;
    if |page.dateTexts| == 0 {
      return Err(MissingDate);
    }
    var stamp := StripLabel(page.dateTexts[0]);
    stamp := NormaliseMonths(stamp);
    var iso := toIso(stamp);
    if iso.None? {
      return Err(UnparsableDate);
    }
    if |page.titleTexts| == 0 {
      return Err(MissingTitle);
    }
    r := Ok(Article(iso.value, StoreUrl(urlEnd), Strip(page.titleTexts[0]), ContentField(page.paragraphs),
                    ImageField(page.imageSrcs), RubricField(page.rubricTexts)));
  }
}
