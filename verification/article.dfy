/**
 * The article package: the Article record, its slug, its one-line form, and
 * the store of articles kept as one JSON file per slug in the directory Dir.
 * A Directory object (module Files) stands for Dir; file names in it are the
 * names inside Dir, so the file Dir + slug + ".json" is FileName(slug).
 */
module Articles {

  import opened Wrappers
  import opened Text
  import opened Files
  import ByLatestDate

  /** Where the articles live on disk; the Directory's keys are relative to it. */
  const Dir: string := "./articles/"

  /** An article: a title, a body and the slug that names its file. */
  datatype Article = Article(title: string, body: string, slug: string)

  // ---------------------------------------------------------------------------
  // Slugify

  /**
   * Slugify: lower-case the title, delete everything outside [a-z0-9 -],
   * turn each run of spaces into '-', collapse each run of '-' into one, and
   * trim spaces and hyphens from both ends.
   */
  function Slugify(title: string): (slug: string)
    ensures |slug| <= |title|
  {
    Trim(ReplaceRuns(ReplaceRuns(KeepAllowed(ToLower(title)), ' ', '-'), '-', '-'))
  }

  /**
   * What a slug looks like: only [a-z0-9-], no "--", and no '-' at either
   * end.
   */
  ghost predicate IsSlug(s: string) {
    && (forall c :: c in s ==> IsSlugChar(c))
    && NoDoubled(s, '-')
    && (s != [] ==> s[0] != '-' && s[|s| - 1] != '-')
  }

  /** Every result of Slugify is slug-shaped. */
  lemma SlugifyIsSlug(title: string)
    ensures IsSlug(Slugify(title))
  {
    var k := KeepAllowed(ToLower(title));
    var a := ReplaceRuns(k, ' ', '-');
    var b := ReplaceRuns(a, '-', '-');
    ReplaceRunsChars(k, ' ', '-', false);
    ReplaceRunsChars(a, '-', '-', false);
    ReplaceRunsNoDoubled(a, '-', false);
    assert forall c :: c in b ==> IsSlugChar(c);
    TrimKeeps(b, '-');
  }

  /**
   * Removing the hyphens from a slug gives exactly the letters and digits of
   * the lower-cased title, in their order: no letter or digit is lost, none
   * is added, and no separator other than '-' survives.
   */
  lemma SlugifyKeepsAlnum(title: string)
    ensures Unhyphen(Slugify(title)) == AlnumOf(ToLower(title))
  {
    var k := KeepAllowed(ToLower(title));
    var a := ReplaceRuns(k, ' ', '-');
    var b := ReplaceRuns(a, '-', '-');
    SlugifyIsSlug(title);
    UnhyphenAlnum(Slugify(title));
    TrimAlnum(b);
    ReplaceRunsAlnum(a, '-', '-', false);
    ReplaceRunsAlnum(k, ' ', '-', false);
    KeepAllowedAlnum(ToLower(title));
  }

  /** The slug is empty exactly when the title has no letter or digit. */
  lemma SlugifyEmpty(title: string)
    ensures Slugify(title) == [] <==> AlnumOf(ToLower(title)) == []
  {
    var s := Slugify(title);
    SlugifyKeepsAlnum(title);
    SlugifyIsSlug(title);
    if s != [] {
      assert s[0] in s;
      assert Unhyphen(s)[0] == s[0];
    }
  }

  /** The strings Slugify leaves unchanged are exactly the slug-shaped ones. */
  lemma SlugFixedPoint(s: string)
    ensures Slugify(s) == s <==> IsSlug(s)
  {
    if IsSlug(s) {
      forall i | 0 <= i < |s| ensures LowerChar(s[i]) == s[i] {
        assert s[i] in s;
      }
      assert ToLower(s) == s;
      KeepAllowedFixed(s);
      ReplaceRunsAbsent(s, ' ', '-', false);
      ReplaceRunsFixed(s, '-', false);
      assert s != [] ==> s[0] in s && s[|s| - 1] in s;
      assert TrimLeft(s) == s;
      assert TrimRight(s) == s;
    } else {
      SlugifyIsSlug(s);
    }
  }

  /** Slugifying a slug changes nothing. */
  lemma SlugifyIdempotent(title: string)
    ensures Slugify(Slugify(title)) == Slugify(title)
  {
    SlugifyIsSlug(title);
    SlugFixedPoint(Slugify(title));
  }


  // ---------------------------------------------------------------------------
  // The record

  /** New: the title and body verbatim, the slug derived from the title. */
  function New(title: string, body: string): (a: Article)
    ensures a.title == title && a.body == body && a.slug == Slugify(title)
    ensures IsSlug(a.slug)
  {
    SlugifyIsSlug(title);
    Article(title, body, Slugify(title))
  }

  /** String: "Title (Slug)", the title verbatim at the front. */
  function String(a: Article): (s: string)
    ensures |s| == |a.title| + |a.slug| + 3
    ensures s[..|a.title|] == a.title && s[|s| - 1] == ')'
  {
    Labelled(a.title, a.slug)
  }

  /**
   * Both parts can be read back from the line whenever the slug has no '('
   * (which no slug made by Slugify has).
   */
  lemma StringReadsBack(a: Article)
    requires '(' !in a.slug
    ensures SplitLabel(String(a)) == Some((a.title, a.slug))
  {
    SplitLabelled(a.title, a.slug);
  }

  /** The line of a new article names its title and its slug. */
  lemma NewString(title: string, body: string)
    ensures SplitLabel(String(New(title, body))) == Some((title, Slugify(title)))
  {
    var a := New(title, body);
    assert '(' !in a.slug by {
      assert IsSlug(a.slug);
      assert !IsSlugChar('(');
    }
    StringReadsBack(a);
  }

  // ---------------------------------------------------------------------------
  // The store

  /** json.Marshal of an article. */
  function Encode(a: Article): (c: Contents)
    ensures c.Encoded?
  {
    Encoded(Doc(a.title, a.body, a.slug))
  }

  /** json.Unmarshal into an article: fails exactly on contents it cannot decode. */
  function Decode(c: Contents): (r: Result<Article>)
    ensures r.Success? <==> c.Encoded?
    ensures r.Success? ==> Encode(r.value) == c
    ensures r.Failure? ==> r.error == ParseFailure
  {
    match c
    case Encoded(d) => Success(Article(d.title, d.body, d.slug))
    case Garbage => Failure(ParseFailure)
  }

  /** Encoding and decoding are inverse. */
  lemma DecodeEncode(a: Article)
    ensures Decode(Encode(a)) == Success(a)
  {
  }

  /**
   * Load: reads the file of `slug` and decodes it; NotFound when there is no
   * such file, ParseFailure when its contents do not decode.
   */
  function Load(files: map<string, Entry>, slug: string): (r: Result<Article>)
    ensures r == Failure(NotFound) <==> FileName(slug) !in files
    ensures r == Failure(ParseFailure) <==> FileName(slug) in files && files[FileName(slug)].contents.Garbage?
    ensures r.Success? <==> FileName(slug) in files && files[FileName(slug)].contents.Encoded?
    ensures r.Success? ==> Encode(r.value) == files[FileName(slug)].contents
  {
    match ReadFile(files, FileName(slug))
    case Failure(e) => Failure(e)
    case Success(c) => Decode(c)
  }

  /** The directory after a successful Save of `a` at time `now`. */
  function Stored(files: map<string, Entry>, a: Article, now: int): (r: map<string, Entry>)
    ensures r.Keys == files.Keys + {FileName(a.slug)}
    ensures r[FileName(a.slug)] == Entry(Encode(a), now)
    ensures forall n :: n in files && n != FileName(a.slug) ==> r[n] == files[n]
  {
    files[FileName(a.slug) := Entry(Encode(a), now)]
  }

  /** Loading by the slug just saved gives the article back. */
  lemma LoadAfterSave(files: map<string, Entry>, a: Article, now: int)
    ensures Load(Stored(files, a, now), a.slug) == Success(a)
  {
  }

  /** Saving one article does not change what any other slug loads. */
  lemma LoadOtherAfterSave(files: map<string, Entry>, a: Article, now: int, slug: string)
    requires slug != a.slug
    ensures Load(Stored(files, a, now), slug) == Load(files, slug)
  {
    FileNameInjective(slug, a.slug);
  }

  /**
   * Two titles with the same slug share one file: saving the second replaces
   * the first, as if the first had never been saved.
   */
  lemma LastWriteWins(files: map<string, Entry>, t1: string, b1: string, n1: int, t2: string, b2: string, n2: int)
    requires Slugify(t1) == Slugify(t2)
    ensures Stored(Stored(files, New(t1, b1), n1), New(t2, b2), n2) == Stored(files, New(t2, b2), n2)
    ensures Load(Stored(Stored(files, New(t1, b1), n1), New(t2, b2), n2), Slugify(t1)) == Success(New(t2, b2))
  {
    SameSlugOverwrites(files, New(t1, b1), n1, New(t2, b2), n2);
    LoadAfterSave(files, New(t2, b2), n2);
  }

  /** Saving an article with the slug of an earlier one erases the earlier one. */
  lemma SameSlugOverwrites(files: map<string, Entry>, a1: Article, n1: int, a2: Article, n2: int)
    requires a1.slug == a2.slug
    ensures Stored(Stored(files, a1, n1), a2, n2) == Stored(files, a2, n2)
  {
  }

  /**
   * Save: writes the encoded article to the file of its slug, replacing any
   * file of that name; every other file is left as it was. An unwritable
   * directory gives an I/O error and no change.
   */
  method Save(a: Article, d: Directory, now: int) returns (err: Option<Error>)
    modifies d
    ensures err == None <==> d.writable
    ensures err != None ==> err == Some(IOFailure)
    ensures d.files == if d.writable then Stored(old(d.files), a, now) else old(d.files)
  {
    err := d.WriteFile(FileName(a.slug), Encode(a), now);
  }

  /**
   * The result of loading the entries of `s` in order, stopping at the
   * first failure: the articles of all of them, or the first error.
   */
  ghost function LoadAll(files: map<string, Entry>, s: seq<FileInfo>): (r: Result<seq<Article>>)
    requires Strippable(s)
    ensures r.Success? ==> |r.value| == |s|
  {
    if s == [] then Success([])
    else
      match LoadAll(files, s[..|s| - 1])
      case Failure(e) => Failure(e)
      case Success(prefix) =>
        match Load(files, Stem(s[|s| - 1].name))
        case Failure(e) => Failure(e)
        case Success(a) => Success(prefix + [a])
  }

  /**
   * Loading all entries succeeds exactly when every entry loads, and then
   * gives the article of each entry at its position.
   */
  lemma {:induction false} LoadAllSuccess(files: map<string, Entry>, s: seq<FileInfo>)
    requires Strippable(s)
    ensures LoadAll(files, s).Success? <==> forall k :: 0 <= k < |s| ==> Load(files, Stem(s[k].name)).Success?
    ensures LoadAll(files, s).Success? ==>
      forall k :: 0 <= k < |s| ==> Load(files, Stem(s[k].name)) == Success(LoadAll(files, s).value[k])
  {
    if s != [] {
      var init := s[..|s| - 1];
      LoadAllSuccess(files, init);
      assert forall k :: 0 <= k < |init| ==> init[k] == s[k];
    }
  }

  /**
   * A failure is the error of the first entry that does not load: every
   * entry before it loads, and nothing is returned but the error.
   */
  lemma {:induction false} LoadAllFailure(files: map<string, Entry>, s: seq<FileInfo>)
    requires Strippable(s)
    ensures LoadAll(files, s).Failure? ==>
      exists k :: 0 <= k < |s| && Load(files, Stem(s[k].name)) == Failure(LoadAll(files, s).error)
        && forall j :: 0 <= j < k ==> Load(files, Stem(s[j].name)).Success?
  {
    if s != [] && LoadAll(files, s).Failure? {
      var init := s[..|s| - 1];
      var e := LoadAll(files, s).error;
      assert forall k :: 0 <= k < |init| ==> init[k] == s[k];
      if LoadAll(files, init).Failure? {
        LoadAllFailure(files, init);
        var k :| 0 <= k < |init| && Load(files, Stem(init[k].name)) == Failure(e)
          && forall j :: 0 <= j < k ==> Load(files, Stem(init[j].name)).Success?;
        assert Load(files, Stem(s[k].name)) == Failure(e);
      } else {
        LoadAllSuccess(files, init);
        assert Load(files, Stem(s[|s| - 1].name)) == Failure(e);
      }
    }
  }

  /** Once a prefix of the entries fails, the whole listing fails the same way. */
  lemma {:induction false} LoadAllStops(files: map<string, Entry>, s: seq<FileInfo>, i: nat)
    requires Strippable(s) && i <= |s|
    requires LoadAll(files, s[..i]).Failure?
    ensures LoadAll(files, s) == LoadAll(files, s[..i])
  {
    if i < |s| {
      var init := s[..|s| - 1];
      assert init[..i] == s[..i];
      LoadAllStops(files, init, i);
    } else {
      assert s[..i] == s;
    }
  }

  /**
   * For a listing of the directory, loading all entries succeeds exactly
   * when every file name has a stem whose article loads.
   */
  lemma ListingLoads(files: map<string, Entry>, listing: seq<FileInfo>)
    requires Enumerates(listing, files) && Strippable(listing)
    ensures LoadAll(files, listing).Success? <==> forall n :: n in files ==> |n| >= 5 && Load(files, Stem(n)).Success?
  {
    LoadAllSuccess(files, listing);
    if forall k :: 0 <= k < |listing| ==> Load(files, Stem(listing[k].name)).Success? {
      forall n | n in files ensures |n| >= 5 && Load(files, Stem(n)).Success? {
        var k :| 0 <= k < |listing| && listing[k].name == n;
      }
    }
  }

  /**
   * The loop of All over the sorted listing `entries`: load the article of
   * every entry in order, the slug being the file name without its last five
   * characters, and return the first error at once.
   */
  method LoadEntries(files: map<string, Entry>, entries: array<FileInfo>) returns (res: Result<seq<Article>>)
    requires Strippable(entries[..])
    ensures res == LoadAll(files, entries[..])
  {
    var articles: seq<Article> := [];
    var i := 0;
    while i < entries.Length
      invariant 0 <= i <= entries.Length
      invariant LoadAll(files, entries[..i]) == Success(articles)
    {
      var r := Load(files, Stem(entries[i].name));
      assert entries[..i + 1][..i] == entries[..i];
      if r.Failure? {
        LoadAllStops(files, entries[..], i + 1);
        return Failure(r.error);
      }
      articles := articles + [r.value];
      i := i + 1;
    }
    assert entries[..i] == entries[..];
    res := Success(articles);
  }

  /**
   * All: lists the directory, sorts the listing newest first, and loads the
   * article of every entry in that order (LoadEntries). An unlistable
   * directory gives an I/O error. `listing` is the sorted directory listing
   * the loop walked.
   */
  method All(d: Directory) returns (res: Result<seq<Article>>, ghost listing: seq<FileInfo>)
    requires d.listable ==> forall n :: n in d.files ==> |n| >= 5
    ensures !d.listable ==> res == Failure(IOFailure)
    ensures d.listable ==> Enumerates(listing, d.files) && ByLatestDate.NewestFirst(listing)
    ensures d.listable ==> Strippable(listing) && res == LoadAll(d.files, listing)
  {
    var infos, err := d.ReadDir();
    listing := [];
    if err != None {
      return Failure(IOFailure), listing;
    }
    ByLatestDate.Sort(infos);
    listing := infos[..];
    ArrangementEnumerates(listing, d.files);
    res := LoadEntries(d.files, infos);
  }
}
