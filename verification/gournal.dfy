/**
 * The blog's main package: the Post record (an earlier copy of the article
 * package's logic), its slug, its one-line form, its store of one JSON file
 * per slug in the directory PostsDir, and the loop of the home page that
 * loads every post in the directory, newest first. A Directory object
 * (module Files) stands for PostsDir; file names in it are the names inside
 * PostsDir, so the file PostsDir + slug + ".json" is FileName(slug).
 */
module Gournal {

  import opened Wrappers
  import opened Text
  import opened Files
  import ByLatestDate
  import Articles

  /** Where the posts live on disk; the Directory's keys are relative to it. */
  const PostsDir: string := "posts/"

  /** A post: a title, a body and the slug used as its permalink. */
  datatype Post = Post(title: string, body: string, slug: string)

  /**
   * slugify: the same five steps as Articles.Slugify, written out again as
   * the source does; the two agree on every title.
   */
  function Slugify(title: string): (slug: string)
    ensures slug == Articles.Slugify(title)
    ensures Articles.IsSlug(slug)
  {
    Articles.SlugifyIsSlug(title);
    var lower := ToLower(title);
    var allowed := KeepAllowed(lower);
    var spaced := ReplaceRuns(allowed, ' ', '-');
    var single := ReplaceRuns(spaced, '-', '-');
    Trim(single)
  }

  /** NewPost: the title and body verbatim, the slug derived from the title. */
  function NewPost(title: string, body: string): (p: Post)
    ensures p.title == title && p.body == body && p.slug == Slugify(title)
    ensures Articles.IsSlug(p.slug)
  {
    Post(title, body, Slugify(title))
  }

  /** A post and the article with the same three fields print the same line. */
  function String(p: Post): (s: string)
    ensures s == Articles.String(Articles.Article(p.title, p.body, p.slug))
    ensures s[..|p.title|] == p.title && s[|s| - 1] == ')'
  {
    Labelled(p.title, p.slug)
  }

  /** The title and slug of a new post can be read back from its line. */
  lemma NewPostString(title: string, body: string)
    ensures SplitLabel(String(NewPost(title, body))) == Some((title, Slugify(title)))
  {
    Articles.NewString(title, body);
  }

  /** json.Marshal of a post. */
  function Encode(p: Post): (c: Contents)
    ensures c.Encoded?
  {
    Encoded(Doc(p.title, p.body, p.slug))
  }

  /** json.Unmarshal into a post: fails exactly on contents it cannot decode. */
  function Decode(c: Contents): (r: Result<Post>)
    ensures r.Success? <==> c.Encoded?
    ensures r.Success? ==> Encode(r.value) == c
    ensures r.Failure? ==> r.error == ParseFailure
  {
    match c
    case Encoded(d) => Success(Post(d.title, d.body, d.slug))
    case Garbage => Failure(ParseFailure)
  }

  /** A post and an article with the same fields are stored as the same bytes. */
  lemma EncodeAsArticle(p: Post)
    ensures Encode(p) == Articles.Encode(Articles.Article(p.title, p.body, p.slug))
    ensures Decode(Encode(p)) == Success(p)
  {
  }

  /**
   * LoadPost: reads the file of `slug` and decodes it; NotFound when there is
   * no such file, ParseFailure when its contents do not decode.
   */
  function LoadPost(files: map<string, Entry>, slug: string): (r: Result<Post>)
    ensures r == Failure(NotFound) <==> FileName(slug) !in files
    ensures r == Failure(ParseFailure) <==> FileName(slug) in files && files[FileName(slug)].contents.Garbage?
    ensures r.Success? <==> FileName(slug) in files && files[FileName(slug)].contents.Encoded?
    ensures r.Success? ==> Encode(r.value) == files[FileName(slug)].contents
  {
    match ReadFile(files, FileName(slug))
    case Failure(e) => Failure(e)
    case Success(c) => Decode(c)
  }

  /** The directory after a successful save of `p` at time `now`. */
  function Stored(files: map<string, Entry>, p: Post, now: int): (r: map<string, Entry>)
    ensures r.Keys == files.Keys + {FileName(p.slug)}
    ensures r[FileName(p.slug)] == Entry(Encode(p), now)
    ensures forall n :: n in files && n != FileName(p.slug) ==> r[n] == files[n]
  {
    files[FileName(p.slug) := Entry(Encode(p), now)]
  }

  /** Loading by the slug just saved gives the post back. */
  lemma LoadPostAfterSave(files: map<string, Entry>, p: Post, now: int)
    ensures LoadPost(Stored(files, p, now), p.slug) == Success(p)
  {
  }

  /** Saving one post does not change what any other slug loads. */
  lemma LoadOtherPostAfterSave(files: map<string, Entry>, p: Post, now: int, slug: string)
    requires slug != p.slug
    ensures LoadPost(Stored(files, p, now), slug) == LoadPost(files, slug)
  {
    FileNameInjective(slug, p.slug);
  }

  /**
   * save: writes the encoded post to the file of its slug, replacing any
   * file of that name; every other file is left as it was. An unwritable
   * directory gives an I/O error and no change.
   */
  method Save(p: Post, d: Directory, now: int) returns (err: Option<Error>)
    modifies d
    ensures err == None <==> d.writable
    ensures err != None ==> err == Some(IOFailure)
    ensures d.files == if d.writable then Stored(old(d.files), p, now) else old(d.files)
  {
    err := d.WriteFile(FileName(p.slug), Encode(p), now);
  }

  /** The post a load yields, or nil when it fails. */
  function Found(r: Result<Post>): (p: Option<Post>)
    ensures p.Some? <==> r.Success?
    ensures p.Some? ==> p.value == r.value
  {
    if r.Success? then Some(r.value) else None
  }

  /**
   * The posts the home page collects while loading the entries of `s` in
   * order: one per entry, nil where the load fails.
   */
  ghost function Loads(files: map<string, Entry>, s: seq<FileInfo>): (posts: seq<Option<Post>>)
    requires Strippable(s)
    ensures |posts| == |s|
  {
    if s == [] then []
    else Loads(files, s[..|s| - 1]) + [Found(LoadPost(files, Stem(s[|s| - 1].name)))]
  }

  /** The slot of each entry holds the result of loading that entry. */
  lemma {:induction false} LoadsAt(files: map<string, Entry>, s: seq<FileInfo>)
    requires Strippable(s)
    ensures forall k :: 0 <= k < |s| ==> Loads(files, s)[k] == Found(LoadPost(files, Stem(s[k].name)))
  {
    if s != [] {
      var init := s[..|s| - 1];
      LoadsAt(files, init);
      assert forall k :: 0 <= k < |init| ==> init[k] == s[k];
    }
  }

  /**
   * The errors the home page reports while loading the entries of `s` in
   * order: one per load that fails, in the order of the entries.
   */
  ghost function LoadErrors(files: map<string, Entry>, s: seq<FileInfo>): (errs: seq<Error>)
    requires Strippable(s)
    ensures |errs| <= |s|
  {
    if s == [] then []
    else
      var r := LoadPost(files, Stem(s[|s| - 1].name));
      LoadErrors(files, s[..|s| - 1]) + if r.Failure? then [r.error] else []
  }

  /** One error is reported per nil post. */
  lemma {:induction false} LoadErrorsCount(files: map<string, Entry>, s: seq<FileInfo>)
    requires Strippable(s)
    ensures |LoadErrors(files, s)| == multiset(Loads(files, s))[None]
  {
    if s != [] {
      var init := s[..|s| - 1];
      LoadErrorsCount(files, init);
      assert Loads(files, s) == Loads(files, init) + [Found(LoadPost(files, Stem(s[|s| - 1].name)))];
    }
  }

  /** No error is reported exactly when every entry loads. */
  lemma {:induction false} NoLoadErrors(files: map<string, Entry>, s: seq<FileInfo>)
    requires Strippable(s)
    ensures LoadErrors(files, s) == [] <==> forall k :: 0 <= k < |s| ==> LoadPost(files, Stem(s[k].name)).Success?
  {
    if s != [] {
      var init := s[..|s| - 1];
      NoLoadErrors(files, init);
      assert forall k :: 0 <= k < |init| ==> init[k] == s[k];
    }
  }

  /**
   * For a listing of the directory, every entry loads exactly when every
   * file name has a stem whose post loads.
   */
  lemma ListingLoads(files: map<string, Entry>, listing: seq<FileInfo>)
    requires Enumerates(listing, files) && Strippable(listing)
    ensures (forall k :: 0 <= k < |listing| ==> LoadPost(files, Stem(listing[k].name)).Success?)
      <==> (forall n :: n in files ==> |n| >= 5 && LoadPost(files, Stem(n)).Success?)
  {
    if forall k :: 0 <= k < |listing| ==> LoadPost(files, Stem(listing[k].name)).Success? {
      forall n | n in files ensures |n| >= 5 && LoadPost(files, Stem(n)).Success? {
        var k :| 0 <= k < |listing| && listing[k].name == n;
      }
    }
  }

  /**
   * The loop of the home page over the sorted listing `entries`: load the
   * post of every entry in order, the slug being the file name without its
   * last five characters. A failed load does not end the loop: its error is
   * reported, a nil post takes the entry's place, and the loop goes on.
   */
  method LoadEach(files: map<string, Entry>, entries: array<FileInfo>) returns (posts: seq<Option<Post>>, errors: seq<Error>)
    requires Strippable(entries[..])
    ensures posts == Loads(files, entries[..])
    ensures errors == LoadErrors(files, entries[..])
  {
    posts := [];
    errors := [];
    var i := 0;
    while i < entries.Length
      invariant 0 <= i <= entries.Length
      invariant posts == Loads(files, entries[..i])
      invariant errors == LoadErrors(files, entries[..i])
    {
      var r := LoadPost(files, Stem(entries[i].name));
      assert entries[..i + 1][..i] == entries[..i];
      if r.Failure? {
        errors := errors + [r.error];
      }
      posts := posts + [Found(r)];
      i := i + 1;
    }
    assert entries[..i] == entries[..];
  }

  /**
   * The listing part of the home page: list the directory, report an
   * unlistable one (which leaves nothing to load), sort the listing newest
   * first and run the loop over it. `errors` lists what the page reports, in
   * order; `listing` is the sorted directory listing the loop walked.
   */
  method HomeListing(d: Directory) returns (posts: seq<Option<Post>>, errors: seq<Error>, ghost listing: seq<FileInfo>)
    requires d.listable ==> forall n :: n in d.files ==> |n| >= 5
    ensures !d.listable ==> posts == [] && errors == [IOFailure]
    ensures d.listable ==> Enumerates(listing, d.files) && ByLatestDate.NewestFirst(listing)
    ensures d.listable ==> Strippable(listing) && posts == Loads(d.files, listing) && errors == LoadErrors(d.files, listing)
  {
    var infos, err := d.ReadDir();
    if err != None {
      // The error is reported but the handler goes on, with no entries:
      // sorting and loading them does nothing.
      posts, errors, listing := [], [err.value], [];
      return;
    }
    ByLatestDate.Sort(infos);
    listing := infos[..];
    ArrangementEnumerates(listing, d.files);
    posts, errors := LoadEach(d.files, infos);
  }
}
