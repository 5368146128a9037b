/**
 * The document session as a value: the ordered open files and the active id.
 * Each function is one handler of the editor taken as a single atomic
 * transition; the class `Editor.CodeEditor` performs the same transitions in
 * place and is proved against these functions.
 */
module Session {
  import opened Wrappers
  import opened Languages

  type Id = string

  datatype File = File(id: Id, name: string, content: string, language: Language)

  datatype State = State(files: seq<File>, activeId: Option<Id>)

  /** The name every created file starts with. */
  const UntitledName := "untitled.txt"

  /** The blank file `createNewFile` builds around a fresh id. */
  function Untitled(id: Id): File
  {
    File(id, UntitledName, "", PlainText)
  }

  predicate HasId(files: seq<File>, id: Id)
  {
    exists i :: 0 <= i < |files| && files[i].id == id
  }

  predicate UniqueIds(files: seq<File>)
  {
    forall i, j :: 0 <= i < j < |files| ==> files[i].id != files[j].id
  }

  /** The active id names some open file, and there is one whenever files are open. */
  predicate ActiveResolves(s: State)
  {
    match s.activeId
    case None => s.files == []
    case Some(id) => HasId(s.files, id)
  }

  /** The session invariant: ids are unique and the active id resolves. */
  predicate Valid(s: State)
  {
    UniqueIds(s.files) && ActiveResolves(s)
  }

  /** `findIndex` by id: the first index holding `id`, or -1. */
  function IndexOfId(files: seq<File>, id: Id): (i: int)
    ensures -1 <= i < |files|
    ensures i >= 0 ==> files[i].id == id && forall j :: 0 <= j < i ==> files[j].id != id
    ensures i == -1 <==> !HasId(files, id)
  {
    if files == [] then -1
    else if files[0].id == id then 0
    else var k := IndexOfId(files[1..], id); if k == -1 then -1 else k + 1
  }

  /** `findIndex` by name: the first index holding a file called `name`, or -1. */
  function IndexOfName(files: seq<File>, name: string): (i: int)
    ensures -1 <= i < |files|
    ensures i >= 0 ==> files[i].name == name && forall j :: 0 <= j < i ==> files[j].name != name
    ensures i == -1 <==> forall j :: 0 <= j < |files| ==> files[j].name != name
  {
    if files == [] then -1
    else if files[0].name == name then 0
    else var k := IndexOfName(files[1..], name); if k == -1 then -1 else k + 1
  }

  /** `find` by id: the first file whose id equals the (optional) id. */
  function Lookup(files: seq<File>, id: Option<Id>): (r: Option<File>)
    ensures r.Some? <==> id.Some? && HasId(files, id.value)
    ensures r.Some? ==> r.value.id == id.value && r.value == files[IndexOfId(files, id.value)]
  {
    match id
    case None => None
    case Some(x) => var i := IndexOfId(files, x); if i == -1 then None else Some(files[i])
  }

  /** With unique ids, the file holding an id is the one at any index holding it. */
  lemma LookupUnique(files: seq<File>, i: int)
    requires UniqueIds(files) && 0 <= i < |files|
    ensures IndexOfId(files, files[i].id) == i
    ensures Lookup(files, Some(files[i].id)) == Some(files[i])
  {
  }

  /** `map` that swaps in `f` for every file with `f`'s id. */
  function ReplaceById(files: seq<File>, f: File): (r: seq<File>)
    ensures |r| == |files|
    ensures forall k :: 0 <= k < |files| ==> r[k] == (if files[k].id == f.id then f else files[k])
  {
    if files == [] then []
    else [if files[0].id == f.id then f else files[0]] + ReplaceById(files[1..], f)
  }

  /** `map` that gives every file with id `id` the content `content`. */
  function UpdateContent(files: seq<File>, id: Id, content: string): (r: seq<File>)
    ensures |r| == |files|
    ensures forall k :: 0 <= k < |files| ==>
      r[k] == (if files[k].id == id then files[k].(content := content) else files[k])
  {
    if files == [] then []
    else [if files[0].id == id then files[0].(content := content) else files[0]]
         + UpdateContent(files[1..], id, content)
  }

  /** `filter` that drops every file with id `id`, keeping the order of the others. */
  function RemoveId(files: seq<File>, id: Id): (r: seq<File>)
    ensures |r| <= |files|
    ensures forall f :: f in r <==> f in files && f.id != id
    ensures !HasId(files, id) ==> r == files
  {
    if files == [] then []
    else if files[0].id == id then RemoveId(files[1..], id)
    else [files[0]] + RemoveId(files[1..], id)
  }

  lemma UniqueIdsTail(files: seq<File>)
    requires UniqueIds(files) && files != []
    ensures UniqueIds(files[1..])
    ensures !HasId(files[1..], files[0].id)
  {
    var tail := files[1..];
    forall a, b | 0 <= a < b < |tail| ensures tail[a].id != tail[b].id {
      assert tail[a] == files[a + 1] && tail[b] == files[b + 1];
    }
    forall j | 0 <= j < |tail| ensures tail[j].id != files[0].id {
      assert tail[j] == files[j + 1];
    }
  }

  /** With unique ids, removing the id at index `i` removes exactly that element. */
  lemma {:induction false} RemoveIdAt(files: seq<File>, i: int)
    requires UniqueIds(files) && 0 <= i < |files|
    ensures RemoveId(files, files[i].id) == files[..i] + files[i + 1..]
  {
    UniqueIdsTail(files);
    var id := files[i].id;
    if i > 0 {
      var tail := files[1..];
      assert tail[i - 1] == files[i];
      RemoveIdAt(tail, i - 1);
      assert files[0].id != id;
      assert RemoveId(files, id) == [files[0]] + RemoveId(tail, id);
      assert tail[..i - 1] == files[1..i];
      assert tail[i..] == files[i + 1..];
      assert files[..i] == [files[0]] + files[1..i];
    }
  }

  /** Prepending a file whose id is new keeps ids unique. */
  lemma ConsKeepsUnique(f: File, rest: seq<File>)
    requires UniqueIds(rest) && !HasId(rest, f.id)
    ensures UniqueIds([f] + rest)
  {
    var r := [f] + rest;
    forall a, b | 0 <= a < b < |r| ensures r[a].id != r[b].id {
      assert r[b] == rest[b - 1];
      if a > 0 {
        assert r[a] == rest[a - 1];
      }
    }
  }

  /** Removing elements keeps ids unique. */
  lemma {:induction false} RemoveIdKeepsUnique(files: seq<File>, id: Id)
    requires UniqueIds(files)
    ensures UniqueIds(RemoveId(files, id))
  {
    if files != [] {
      var tail := files[1..];
      UniqueIdsTail(files);
      RemoveIdKeepsUnique(tail, id);
      if files[0].id != id {
        var rest := RemoveId(tail, id);
        assert RemoveId(files, id) == [files[0]] + rest;
        forall k | 0 <= k < |rest| ensures rest[k].id != files[0].id {
          assert rest[k] in tail;
        }
        ConsKeepsUnique(files[0], rest);
      }
    }
  }

  /** With unique ids, replacing by the id at index `i` changes that element only. */
  lemma ReplaceByIdAt(files: seq<File>, i: int, f: File)
    requires UniqueIds(files) && 0 <= i < |files| && f.id == files[i].id
    ensures ReplaceById(files, f) == files[i := f]
    ensures UniqueIds(files[i := f])
  {
    var r := ReplaceById(files, f);
    forall k | 0 <= k < |files| ensures r[k] == files[i := f][k] {
      if k != i {
        assert files[k].id != files[i].id;
      }
    }
  }

  // ---------------------------------------------------------------------
  // The handlers, one atomic transition each.
  // ---------------------------------------------------------------------

  /** `createNewFile`: append a blank untitled file and make it active. */
  function Create(s: State, id: Id): (r: State)
    ensures |r.files| == |s.files| + 1 && r.files[..|s.files|] == s.files
    ensures r.files[|s.files|] == Untitled(id) && r.activeId == Some(id)
    ensures Valid(s) && !HasId(s.files, id) ==> Valid(r)
  {
    State(s.files + [Untitled(id)], Some(id))
  }

  /**
   * The import branch of `openFile`: the language is inferred from the name,
   * then the file is stored.
   */
  function Import(s: State, name: string, content: string, freshId: Id): (r: State)
    ensures |r.files| == |s.files| || |r.files| == |s.files| + 1
    ensures !HasId(s.files, freshId) ==>
      && r.activeId.Some?
      && Lookup(r.files, r.activeId) == Some(File(r.activeId.value, name, content, LanguageByFileName(name)))
  {
    Store(s, name, content, LanguageByFileName(name), freshId)
  }

  /**
   * Storing an imported file: a file whose name is already open is
   * overwritten in place (same id and position) with the new content and
   * language; otherwise a new file with `freshId` is appended. The stored
   * file becomes active either way.
   */
  function Store(s: State, name: string, content: string, language: Language, freshId: Id): (r: State)
    ensures var i := IndexOfName(s.files, name);
      i >= 0 ==>
        && |r.files| == |s.files|
        && r.files[i] == File(s.files[i].id, name, content, language)
        && r.activeId == Some(s.files[i].id)
        && forall k :: 0 <= k < |s.files| && s.files[k].id != s.files[i].id ==> r.files[k] == s.files[k]
    ensures IndexOfName(s.files, name) == -1 ==>
      r.files == s.files + [File(freshId, name, content, language)] && r.activeId == Some(freshId)
    ensures !HasId(s.files, freshId) ==>
      && r.activeId.Some?
      && Lookup(r.files, r.activeId) == Some(File(r.activeId.value, name, content, language))
  {
    var i := IndexOfName(s.files, name);
    if i >= 0 then
      var updated := s.files[i].(content := content, language := language);
      State(ReplaceById(s.files, updated), Some(updated.id))
    else
      var appended := s.files + [File(freshId, name, content, language)];
      assert appended[|s.files|].id == freshId;
      State(appended, Some(freshId))
  }

  /** Storing an open name overwrites the first file with that name and nothing else. */
  lemma StoreExisting(s: State, name: string, content: string, language: Language, freshId: Id)
    requires Valid(s) && IndexOfName(s.files, name) >= 0
    ensures var i := IndexOfName(s.files, name);
      var r := Store(s, name, content, language, freshId);
      && |r.files| == |s.files|
      && r.files[i] == File(s.files[i].id, name, content, language)
      && (forall k :: 0 <= k < |s.files| && k != i ==> r.files[k] == s.files[k])
      && r.activeId == Some(s.files[i].id)
      && Valid(r)
  {
    var i := IndexOfName(s.files, name);
    var updated := s.files[i].(content := content, language := language);
    ReplaceByIdAt(s.files, i, updated);
    var r := Store(s, name, content, language, freshId);
    assert r.files == s.files[i := updated];
    assert HasId(r.files, updated.id) by { assert r.files[i].id == updated.id; }
  }

  /** Storing a name that is not open appends it, leaving every other file in place. */
  lemma StoreNew(s: State, name: string, content: string, language: Language, freshId: Id)
    requires Valid(s) && IndexOfName(s.files, name) == -1 && !HasId(s.files, freshId)
    ensures var r := Store(s, name, content, language, freshId);
      && r.files == s.files + [File(freshId, name, content, language)]
      && r.activeId == Some(freshId)
      && Valid(r)
  {
    var r := Store(s, name, content, language, freshId);
    assert HasId(r.files, freshId) by { assert r.files[|s.files|].id == freshId; }
  }

  /** Either branch of a store from a valid session leaves it valid. */
  lemma StoreKeepsValid(s: State, name: string, content: string, language: Language, freshId: Id)
    requires Valid(s) && !HasId(s.files, freshId)
    ensures Valid(Store(s, name, content, language, freshId))
  {
    if IndexOfName(s.files, name) >= 0 {
      StoreExisting(s, name, content, language, freshId);
    } else {
      StoreNew(s, name, content, language, freshId);
    }
  }

  /** Importing the same new name twice leaves one file of that name, holding the second content. */
  lemma ImportTwice(s: State, name: string, c1: string, c2: string, id1: Id, id2: Id)
    requires Valid(s) && IndexOfName(s.files, name) == -1 && !HasId(s.files, id1)
    ensures var r := Import(Import(s, name, c1, id1), name, c2, id2);
      && Valid(r)
      && |r.files| == |s.files| + 1
      && r.files[|s.files|] == File(id1, name, c2, LanguageByFileName(name))
      && (forall k :: 0 <= k < |r.files| && r.files[k].name == name ==> k == |s.files|)
      && r.activeId == Some(id1)
  {
    var language := LanguageByFileName(name);
    var n := |s.files|;
    var f1 := File(id1, name, c1, language);
    var m := Store(s, name, c1, language, id1);
    assert m == State(s.files + [f1], Some(id1)) && Valid(m) by {
      StoreNew(s, name, c1, language, id1);
    }
    assert IndexOfName(m.files, name) == n by {
      assert m.files[n] == f1;
    }
    RestoreLast(m, n, name, c2, language, id2);
  }

  /** Storing the name of the last file, when no other file has it, rewrites only that file. */
  lemma RestoreLast(m: State, n: nat, name: string, content: string, language: Language, freshId: Id)
    requires Valid(m) && |m.files| == n + 1 && IndexOfName(m.files, name) == n
    ensures var r := Store(m, name, content, language, freshId);
      && Valid(r)
      && |r.files| == n + 1
      && r.files[n] == File(m.files[n].id, name, content, language)
      && (forall k :: 0 <= k < |r.files| && r.files[k].name == name ==> k == n)
      && r.activeId == Some(m.files[n].id)
  {
    StoreExisting(m, name, content, language, freshId);
  }

  /**
   * `closeFile`: drop the file; if it was active, activate the first file
   * left, or create a fresh untitled file when none is left. Closing a
   * file that is not active leaves the active id alone.
   */
  function Close(s: State, id: Id, freshId: Id): (r: State)
    ensures r.activeId == Some(id) ==> s.activeId == Some(id) && freshId == id
    ensures s.activeId != Some(id) ==> r == State(RemoveId(s.files, id), s.activeId)
    ensures s.activeId == Some(id) && RemoveId(s.files, id) != [] ==>
      r == State(RemoveId(s.files, id), Some(RemoveId(s.files, id)[0].id))
    ensures s.activeId == Some(id) && RemoveId(s.files, id) == [] ==>
      r == State([Untitled(freshId)], Some(freshId))
  {
    var remaining := RemoveId(s.files, id);
    if s.activeId == Some(id) then
      if |remaining| > 0 then State(remaining, Some(remaining[0].id))
      else Create(State(remaining, None), freshId)
    else State(remaining, s.activeId)
  }

  /**
   * After any close from a valid session with an open file, the session is
   * still valid, at least one file is open, and the closed file is gone.
   */
  lemma CloseKeepsSessionUsable(s: State, id: Id, freshId: Id)
    requires Valid(s) && s.files != [] && !HasId(s.files, freshId)
    ensures var r := Close(s, id, freshId);
      Valid(r) && r.files != [] && r.activeId.Some? && !HasId(r.files, id)
  {
    var remaining := RemoveId(s.files, id);
    RemoveIdKeepsUnique(s.files, id);
    var r := Close(s, id, freshId);
    if s.activeId == Some(id) {
      if remaining != [] {
        assert HasId(r.files, remaining[0].id);
      } else {
        assert HasId(r.files, freshId) by { assert r.files[0].id == freshId; }
        assert freshId != id;
      }
    } else {
      var a := s.activeId.value;
      var j :| 0 <= j < |s.files| && s.files[j].id == a;
      assert s.files[j] in remaining;
      var k :| 0 <= k < |remaining| && remaining[k] == s.files[j];
      assert HasId(r.files, a);
    }
    assert !HasId(r.files, id) by {
      forall k | 0 <= k < |r.files| ensures r.files[k].id != id {
        if r.files != [Untitled(freshId)] || remaining != [] {
          assert r.files[k] in remaining;
        }
      }
    }
  }

  /** Clicking a tab: the clicked file becomes active. */
  function Select(s: State, id: Id): (r: State)
    ensures r.files == s.files && r.activeId == Some(id)
    ensures Valid(s) && HasId(s.files, id) ==> Valid(r)
  {
    State(s.files, Some(id))
  }

  /** The position of the active file, as the key handler computes it. */
  function ActiveIndex(s: State): int
  {
    if s.activeId.Some? then IndexOfId(s.files, s.activeId.value) else -1
  }

  /**
   * The Ctrl+Tab branch of the key handler: with more than one file, move to
   * the file after the active one in order, wrapping at the end; an active id
   * that is not found counts as index -1, which moves to the first file.
   */
  function Next(s: State): (r: State)
    ensures r.files == s.files
    ensures |s.files| <= 1 ==> r == s
    ensures |s.files| > 1 ==> r.activeId.Some? && HasId(s.files, r.activeId.value)
    ensures |s.files| > 1 && (s.activeId.None? || !HasId(s.files, s.activeId.value)) ==>
      r.activeId == Some(s.files[0].id)
  {
    if |s.files| <= 1 then s
    else
      var current := ActiveIndex(s);
      var next := (current + 1) % |s.files|;
      State(s.files, Some(s.files[next].id))
  }

  /** The successor modulo `n` of an index in [-1, n), without the modulo. */
  lemma SuccessorMod(i: int, n: int)
    requires n > 0 && -1 <= i < n
    ensures (i + 1) % n == if i + 1 == n then 0 else i + 1
  {
  }

  /** One step of Next moves the active index on by one, wrapping from the last file to the first. */
  lemma NextStep(s: State)
    requires Valid(s) && |s.files| > 1
    ensures Valid(Next(s)) && Next(s).activeId.Some?
    ensures ActiveIndex(Next(s)) == if ActiveIndex(s) + 1 == |s.files| then 0 else ActiveIndex(s) + 1
  {
    SuccessorMod(ActiveIndex(s), |s.files|);
    var n := (ActiveIndex(s) + 1) % |s.files|;
    LookupUnique(s.files, n);
    assert HasId(s.files, s.files[n].id);
  }

  /** `k` applications of Next. */
  function NextN(s: State, k: nat): State
    decreases k
  {
    if k == 0 then s else NextN(Next(s), k - 1)
  }

  /** From the file at index `i`, `k <= n` steps of Next reach index `i + k`, wrapped once past the end. */
  lemma {:induction false} NextNStep(s: State, k: nat)
    requires Valid(s) && |s.files| > 1 && s.activeId.Some? && k <= |s.files|
    decreases k
    ensures Valid(NextN(s, k)) && NextN(s, k).files == s.files && NextN(s, k).activeId.Some?
    ensures var i := ActiveIndex(s);
      ActiveIndex(NextN(s, k)) == if i + k < |s.files| then i + k else i + k - |s.files|
  {
    if k > 0 {
      NextStep(s);
      var t := Next(s);
      assert NextN(s, k) == NextN(t, k - 1);
      var i := ActiveIndex(s);
      var j := ActiveIndex(t);
      assert j == if i + 1 == |s.files| then 0 else i + 1;
      NextNStep(t, k - 1);
    }
  }

  /** Cycling through all `n` open files with Next comes back to the file that was active. */
  lemma NextCyclesBack(s: State)
    requires Valid(s) && |s.files| > 1 && s.activeId.Some?
    ensures NextN(s, |s.files|) == s
  {
    var n := |s.files|;
    NextNStep(s, n);
    var r := NextN(s, n);
    var i := ActiveIndex(s);
    assert ActiveIndex(r) == i;
    assert s.files[IndexOfId(s.files, r.activeId.value)].id == r.activeId.value;
  }

  /** With [A, B, C] and A active, Next twice lands on C and a third time wraps to A. */
  lemma NextThreeFiles(a: File, b: File, c: File)
    requires a.id != b.id && b.id != c.id && a.id != c.id
    ensures var s := State([a, b, c], Some(a.id));
      && NextN(s, 2).activeId == Some(c.id)
      && NextN(s, 3).activeId == Some(a.id)
  {
    var s := State([a, b, c], Some(a.id));
    assert IndexOfId(s.files, a.id) == 0;
    assert Next(s) == State([a, b, c], Some(b.id));
    assert IndexOfId(s.files, b.id) == 1;
    assert Next(Next(s)) == State([a, b, c], Some(c.id));
    assert IndexOfId(s.files, c.id) == 2;
    assert Next(Next(Next(s))) == s;
  }

  /**
   * The change listener: give the file with the target id the widget's text.
   * With no target it does nothing. Ids, names, languages and the active id
   * are never touched.
   */
  function ContentChanged(s: State, target: Option<Id>, text: string): (r: State)
    ensures target.None? ==> r == s
    ensures r.activeId == s.activeId && |r.files| == |s.files|
    ensures forall k :: 0 <= k < |s.files| ==>
      && r.files[k].id == s.files[k].id && r.files[k].name == s.files[k].name
      && r.files[k].language == s.files[k].language
      && r.files[k].content == (if Some(s.files[k].id) == target then text else s.files[k].content)
  {
    match target
    case None => s
    case Some(id) => State(UpdateContent(s.files, id, text), s.activeId)
  }

  /** The change listener keeps the session valid. */
  lemma ContentChangedKeepsValid(s: State, target: Option<Id>, text: string)
    requires Valid(s)
    ensures Valid(ContentChanged(s, target, text))
  {
    var r := ContentChanged(s, target, text);
    if s.activeId.Some? {
      var j :| 0 <= j < |s.files| && s.files[j].id == s.activeId.value;
      assert r.files[j].id == s.activeId.value;
    }
  }

  /**
   * A listener that targets the active file leaves the active file holding
   * exactly the widget's text, and every other file as it was.
   */
  lemma ListenerOnActiveFileSyncs(s: State, text: string)
    requires Valid(s) && s.activeId.Some?
    ensures var r := ContentChanged(s, s.activeId, text);
      && Lookup(r.files, r.activeId).Some?
      && Lookup(r.files, r.activeId).value.content == text
      && forall k :: 0 <= k < |s.files| && Some(s.files[k].id) != s.activeId ==> r.files[k] == s.files[k]
  {
    var r := ContentChanged(s, s.activeId, text);
    ContentChangedKeepsValid(s, s.activeId, text);
    var i := IndexOfId(r.files, r.activeId.value);
    assert r.files[i].id == s.files[i].id;
  }

  /** A listener aimed at any file but the active one leaves the active file as it was. */
  lemma ListenerElsewhereKeepsActive(s: State, target: Option<Id>, text: string)
    requires Valid(s) && s.activeId.Some? && target != s.activeId
    ensures var r := ContentChanged(s, target, text);
      Lookup(r.files, r.activeId) == Lookup(s.files, s.activeId)
  {
    var r := ContentChanged(s, target, text);
    ContentChangedKeepsValid(s, target, text);
    var i := IndexOfId(s.files, s.activeId.value);
    assert r.files[i] == s.files[i];
    LookupUnique(s.files, i);
    LookupUnique(r.files, i);
  }

  /**
   * The listener as the editor registers it targets the file that was active
   * when the widget was built. After switching to another file the edit lands
   * in the old file and the active file keeps its stale content.
   */
  lemma StaleListenerMissesActiveFile()
    ensures var a := File("a", "a.js", "old a", JavaScript);
      var b := File("b", "b.py", "old b", Python);
      var s := State([a, b], Some("b"));
      var r := ContentChanged(s, Some("a"), "typed");
      && Valid(s)
      && Lookup(r.files, r.activeId).value.content == "old b"
      && r.files[0].content == "typed"
  {
    var a := File("a", "a.js", "old a", JavaScript);
    var b := File("b", "b.py", "old b", Python);
    var s := State([a, b], Some("b"));
    assert HasId(s.files, "b") by { assert s.files[1].id == "b"; }
  }

  /**
   * Start-up then import: an untitled file and `script.js` are open, and the
   * imported one is active with language and mode "javascript".
   */
  lemma CreateThenImportScenario(id1: Id, id2: Id)
    requires id1 != id2
    ensures var r := Import(Create(State([], None), id1), "script.js", "let x=1;", id2);
      && r.files == [Untitled(id1), File(id2, "script.js", "let x=1;", JavaScript)]
      && r.activeId == Some(id2)
      && ModeByLanguage(r.files[1].language) == "javascript"
  {
    var s := Create(State([], None), id1);
    ScriptJsExample();
    assert IndexOfName(s.files, "script.js") == -1;
  }
}
