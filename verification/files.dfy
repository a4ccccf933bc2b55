/**
 * The flat-file directory both stores use, in place of ioutil.ReadDir,
 * ioutil.ReadFile and ioutil.WriteFile. A directory maps file names to their
 * contents and modification times; two flags say whether it can be listed
 * and written. JSON is abstracted to a document with the three fields Title,
 * Body and Slug, or contents that do not decode.
 */
module Files {

  import opened Wrappers

  /** The three ways a store operation fails. */
  datatype Error = NotFound | IOFailure | ParseFailure

  datatype Result<+T> = Success(value: T) | Failure(error: Error)

  /** The JSON object {"Title": …, "Body": …, "Slug": …} shared by articles and posts. */
  datatype Doc = Doc(title: string, body: string, slug: string)

  /** What a file holds: an encoded document, or anything json.Unmarshal rejects. */
  datatype Contents = Encoded(doc: Doc) | Garbage

  datatype Entry = Entry(contents: Contents, mtime: int)

  /** The part of an os.FileInfo the stores look at. */
  datatype FileInfo = FileInfo(name: string, mtime: int)

  /** The suffix every stored file name carries. */
  const Ext: string := ".json"

  /** The name of the file that holds the record with this slug. */
  function FileName(slug: string): (name: string)
    ensures |name| == |slug| + 5 && name[..|slug|] == slug && name[|slug|..] == Ext
  {
    slug + Ext
  }

  /** Distinct slugs address distinct files. */
  lemma FileNameInjective(s: string, t: string)
    ensures FileName(s) == FileName(t) ==> s == t
  {
    if FileName(s) == FileName(t) {
      assert s == FileName(s)[..|s|];
    }
  }

  /**
   * `name[:len(name)-len(".json")]`: the file name without its last five
   * characters. Go panics on a shorter name, hence the requires.
   */
  function Stem(name: string): (slug: string)
    requires |name| >= 5
    ensures |slug| == |name| - 5
  {
    name[..|name| - 5]
  }

  /** Stripping ".json" from a file name and adding it back gives the name. */
  lemma StemFileName(name: string)
    requires |name| >= 5 && name[|name| - 5..] == Ext
    ensures FileName(Stem(name)) == name
  {
    assert name == name[..|name| - 5] + name[|name| - 5..];
  }

  /** Stripping ".json" from the name of the file of a slug gives the slug. */
  lemma FileNameStem(slug: string)
    ensures Stem(FileName(slug)) == slug
  {
  }

  /** Every entry of `s` has a name long enough to strip ".json" from. */
  ghost predicate Strippable(s: seq<FileInfo>) {
    forall i :: 0 <= i < |s| ==> |s[i].name| >= 5
  }

  /** ioutil.ReadFile: the contents of the file, or NotFound. */
  function ReadFile(files: map<string, Entry>, name: string): (r: Result<Contents>)
    ensures r.Success? <==> name in files
    ensures r.Success? ==> r.value == files[name].contents
    ensures r.Failure? ==> r.error == NotFound
  {
    if name in files then Success(files[name].contents) else Failure(NotFound)
  }

  /** The listing entries of the files whose names are in `names`. */
  function InfosOf(files: map<string, Entry>, names: set<string>): set<FileInfo>
    requires names <= files.Keys
  {
    set n | n in names :: FileInfo(n, files[n].mtime)
  }

  /** The listing entries of the whole directory. */
  function Infos(files: map<string, Entry>): set<FileInfo> {
    InfosOf(files, files.Keys)
  }

  /**
   * `s` lists the directory: one entry per file, no file twice, each with the
   * file's modification time.
   */
  ghost predicate Enumerates(s: seq<FileInfo>, files: map<string, Entry>) {
    && (forall i :: 0 <= i < |s| ==> s[i].name in files && s[i].mtime == files[s[i].name].mtime)
    && (forall n :: n in files ==> exists i :: 0 <= i < |s| && s[i].name == n)
    && (forall i, j :: 0 <= i < j < |s| ==> s[i].name != s[j].name)
  }

  /** Two positions holding the same value make its multiplicity at least two. */
  lemma TwiceInMultiset<T>(s: seq<T>, i: nat, j: nat)
    requires i < j < |s| && s[i] == s[j]
    ensures multiset(s)[s[i]] >= 2
  {
    assert s == s[..j] + [s[j]] + s[j + 1..];
    assert s[i] in s[..j];
  }

  /**
   * Any arrangement of the directory's listing entries, such as the one a
   * sort produces, enumerates the directory.
   */
  lemma {:induction false} ArrangementEnumerates(s: seq<FileInfo>, files: map<string, Entry>)
    requires multiset(s) == multiset(Infos(files))
    ensures Enumerates(s, files)
  {
    forall i | 0 <= i < |s|
      ensures s[i].name in files && s[i].mtime == files[s[i].name].mtime
    {
      assert s[i] in multiset(s);
    }
    forall n | n in files
      ensures exists i :: 0 <= i < |s| && s[i].name == n
    {
      var info := FileInfo(n, files[n].mtime);
      assert info in Infos(files);
      assert info in multiset(s);
      var i :| 0 <= i < |s| && s[i] == info;
    }
    forall i, j | 0 <= i < j < |s|
      ensures s[i].name != s[j].name
    {
      if s[i].name == s[j].name {
        assert s[i] in multiset(s) && s[j] in multiset(s);
        assert s[i] == s[j];
        TwiceInMultiset(s, i, j);
        assert false;
      }
    }
  }

  /**
   * A directory: the files it holds, and whether ReadDir and WriteFile
   * succeed on it.
   */
  class Directory {
    var files: map<string, Entry>
    const listable: bool
    const writable: bool

    constructor (files: map<string, Entry>, listable: bool, writable: bool)
      ensures this.files == files && this.listable == listable && this.writable == writable
    {
      this.files := files;
      this.listable := listable;
      this.writable := writable;
    }

    /**
     * ioutil.ReadDir: a fresh slice of listing entries in some order, or an
     * I/O error (and no entries) when the directory cannot be listed.
     */
    method ReadDir() returns (infos: array<FileInfo>, err: Option<Error>)
      ensures fresh(infos)
      ensures err == None <==> listable
      ensures err != None ==> err == Some(IOFailure) && infos.Length == 0
      ensures listable ==> multiset(infos[..]) == multiset(Infos(files))
    {
      if !listable {
        infos := new FileInfo[0];
        return infos, Some(IOFailure);
      }
      var todo := files.Keys;
      var list: seq<FileInfo> := [];
      while todo != {}
        invariant todo <= files.Keys
        invariant multiset(list) == multiset(InfosOf(files, files.Keys - todo))
        decreases todo
      {
        var n :| n in todo;
        var info := FileInfo(n, files[n].mtime);
        var done := files.Keys - todo;
        assert InfosOf(files, done + {n}) == InfosOf(files, done) + {info};
        assert info !in InfosOf(files, done);
        list := list + [info];
        todo := todo - {n};
        assert files.Keys - todo == done + {n};
      }
      assert files.Keys - todo == files.Keys;
      infos := new FileInfo[|list|](i requires 0 <= i < |list| => list[i]);
      assert infos[..] == list;
      err := None;
    }

    /**
     * ioutil.WriteFile: replaces (or creates) the file `name`, stamping it
     * with `now`; when the directory is not writable nothing changes.
     */
    method WriteFile(name: string, contents: Contents, now: int) returns (err: Option<Error>)
      modifies this
      ensures err == None <==> writable
      ensures err != None ==> err == Some(IOFailure)
      ensures files == if writable then old(files)[name := Entry(contents, now)] else old(files)
    {
      if writable {
        files := files[name := Entry(contents, now)];
        err := None;
      } else {
        err := Some(IOFailure);
      }
    }
  }
}
