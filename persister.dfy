/** `save_to_file`: write the body of every article to a file named after its
    sanitised title, in the current directory, and return the names written.
    The directory is abstracted to a map from filename to file content. */
module Persister {
  import opened Sanitizer

  /** One entry of `articles_info`: the `'title'` and `'body'` of an article. */
  datatype ArticleInfo = ArticleInfo(title: string, body: string)

  /** The working directory as far as `save_to_file` touches it. */
  class FileStore {
    var files: map<string, string>

    constructor (initial: map<string, string>)
      ensures files == initial
    {
      files := initial;
    }

    /** `open(name, 'w')` then `write(content)`: the file is created or
        truncated, and afterwards holds exactly `content`. */
    method WriteFile(name: string, content: string)
      modifies this
      ensures files == old(files)[name := content]
    {
      files := files[name := content];
    }
  }

  /** The list `save_to_file` returns: one filename per article, in order. */
  function SavedNames(infos: seq<ArticleInfo>): (names: seq<string>)
    ensures |names| == |infos|
    ensures forall i :: 0 <= i < |infos| ==> names[i] == Sanitize(infos[i].title)
  {
    if infos == [] then []
    else
      var n := |infos| - 1;
      assert forall i :: 0 <= i < n ==> infos[..n][i] == infos[i];
      SavedNames(infos[..n]) + [Sanitize(infos[n].title)]
  }

  /** The directory after the writes of `infos`, one after the other. */
  function Persist(files: map<string, string>, infos: seq<ArticleInfo>): map<string, string> {
    if infos == [] then files
    else
      var n := |infos| - 1;
      Persist(files, infos[..n])[Sanitize(infos[n].title) := infos[n].body]
  }

  /** The files present afterwards are those present before and those the
      returned names designate. */
  lemma {:induction false} PersistKeys(files: map<string, string>, infos: seq<ArticleInfo>)
    ensures forall name :: name in Persist(files, infos) <==> name in files || name in SavedNames(infos)
  {
    if infos != [] {
      var n := |infos| - 1;
      PersistKeys(files, infos[..n]);
      assert SavedNames(infos) == SavedNames(infos[..n]) + [Sanitize(infos[n].title)];
    }
  }

  /** Lines 83-96: the loop of `save_to_file` over an abstract directory. */
  method SaveToFile(store: FileStore, infos: seq<ArticleInfo>) returns (saved: seq<string>)
    modifies store
    ensures saved == SavedNames(infos)
    ensures store.files == Persist(old(store.files), infos)
    ensures forall i :: 0 <= i < |infos| && (forall j :: i < j < |infos| ==> saved[j] != saved[i]) ==>
      saved[i] in store.files && store.files[saved[i]] == infos[i].body
  {
    saved := [];
    var i := 0;
    while i < |infos|
      invariant 0 <= i <= |infos|
      invariant saved == SavedNames(infos[..i])
      invariant store.files == Persist(old(store.files), infos[..i])
    {
      var title := Sanitize(infos[i].title);
      var body := infos[i].body;
      store.WriteFile(title, body);
      saved := saved + [title];
      assert infos[..i + 1][..i] == infos[..i];
      i := i + 1;
    }
    assert infos[..|infos|] == infos;
    forall i | 0 <= i < |infos| && (forall j :: i < j < |infos| ==> saved[j] != saved[i])
      ensures saved[i] in store.files && store.files[saved[i]] == infos[i].body
    {
      PersistLastWriteWins(old(store.files), infos, i);
    }
  }

  /** A file whose name is not among the saved names is left as it was
      (present with the same content, or absent). */
  lemma {:induction false} PersistLeavesOthers(files: map<string, string>, infos: seq<ArticleInfo>, name: string)
    requires name !in SavedNames(infos)
    ensures name in Persist(files, infos) <==> name in files
    ensures name in files ==> Persist(files, infos)[name] == files[name]
  {
    if infos != [] {
      var n := |infos| - 1;
      assert SavedNames(infos) == SavedNames(infos[..n]) + [Sanitize(infos[n].title)];
      PersistLeavesOthers(files, infos[..n], name);
    }
  }

  /** The last write to a name wins: a file holds, unchanged, the body of the
      last article whose title sanitises to its name. */
  lemma {:induction false} PersistLastWriteWins(files: map<string, string>, infos: seq<ArticleInfo>, i: nat)
    requires i < |infos|
    requires forall j :: i < j < |infos| ==> Sanitize(infos[j].title) != Sanitize(infos[i].title)
    ensures Sanitize(infos[i].title) in Persist(files, infos)
    ensures Persist(files, infos)[Sanitize(infos[i].title)] == infos[i].body
  {
    var n := |infos| - 1;
    var key, last := Sanitize(infos[i].title), Sanitize(infos[n].title);
    assert Persist(files, infos) == Persist(files, infos[..n])[last := infos[n].body];
    if i < n {
      assert infos[..n][i] == infos[i];
      assert forall j :: i < j < n ==> infos[..n][j] == infos[j];
      PersistLastWriteWins(files, infos[..n], i);
      assert key != last;
    }
  }

  /** When no two titles collide, every saved file holds its own article's
      body: reading a returned name back yields that article's body. */
  lemma PersistDistinctRoundTrip(files: map<string, string>, infos: seq<ArticleInfo>, i: nat)
    requires i < |infos|
    requires forall j, k :: 0 <= j < k < |infos| ==> Sanitize(infos[j].title) != Sanitize(infos[k].title)
    ensures SavedNames(infos)[i] in Persist(files, infos)
    ensures Persist(files, infos)[SavedNames(infos)[i]] == infos[i].body
  {
    PersistLastWriteWins(files, infos, i);
  }

  /** An empty list of articles writes nothing and returns no names. */
  lemma PersistNothing(files: map<string, string>)
    ensures SavedNames([]) == [] && Persist(files, []) == files
  {
  }

  /** `"A, B!"` and `"A B"` collide on `"A_B.txt"`: both entries of the
      result name that file, and it keeps only the later body. */
  lemma CollisionOverwrites(files: map<string, string>, first: string, second: string)
    ensures SavedNames([ArticleInfo("A, B!", first), ArticleInfo("A B", second)]) == ["A_B.txt", "A_B.txt"]
    ensures Persist(files, [ArticleInfo("A, B!", first), ArticleInfo("A B", second)])["A_B.txt"] == second
  {
    PunctuationCollision();
    var infos := [ArticleInfo("A, B!", first), ArticleInfo("A B", second)];
    PersistLastWriteWins(files, infos, 1);
  }

  /** An article titled `"Test Title"` with body `"Body content."` is saved
      as `Test_Title.txt` holding exactly that body. */
  lemma TestTitleExample(files: map<string, string>)
    ensures SavedNames([ArticleInfo("Test Title", "Body content.")]) == ["Test_Title.txt"]
    ensures Persist(files, [ArticleInfo("Test Title", "Body content.")])["Test_Title.txt"] == "Body content."
  {
    TestTitleName();
    PersistLastWriteWins(files, [ArticleInfo("Test Title", "Body content.")], 0);
  }
}
