// The documents that a back-end keeps for its clients, and the objects that it exports for
// them on the bus.
module DocumentRegistry {
  // What is exported: the dummy, and below the id of an app the id of a document.
  datatype ObjectPath = Dummy | Doc(app: nat, doc: nat)

  datatype Document = Document(id: nat, clientPath: string, path: string, dataPath: string)

  datatype App = App(id: nat, name: string, docs: map<string, Document>, nextid: nat)

  // A client and a normalised path.
  type Key = (string, string)

  type Table = map<Key, ObjectPath>

  // ---- What the fields have to do with one another ----------------------------------------------

  // Each app stands under its name, with an id of its own.
  ghost predicate Apps(apps: map<string, App>, nextid: nat) {
    (forall n :: n in apps ==> apps[n].name == n && apps[n].id < nextid) &&
    (forall m, n :: m in apps && n in apps && apps[m].id == apps[n].id ==> m == n)
  }

  // The tables of the apps together are the documents.
  ghost predicate Tables(apps: map<string, App>, documents: Table) {
    (forall k :: k in documents ==> k.0 in apps && k.1 in apps[k.0].docs) &&
    (forall n, p :: n in apps && p in apps[n].docs ==>
      (n, p) in documents && documents[(n, p)] == Doc(apps[n].id, apps[n].docs[p].id) && apps[n].docs[p].path == p)
  }

  // Ids are given out in order.
  ghost predicate Ids(apps: map<string, App>, nextid: nat, used: set<ObjectPath>) {
    (forall o :: o in used ==> o.Doc? && o.app < nextid) &&
    (forall o, n :: o in used && n in apps && apps[n].id == o.app ==> o.doc < apps[n].nextid)
  }

  // No object stands for two documents.
  ghost predicate OneEach(documents: Table) {
    forall k, l :: k in documents && l in documents && documents[k] == documents[l] ==> k == l
  }

  /* Every object that was ever used is exported now or was disposed of, and that once and
     for all. */
  ghost predicate Accounted(documents: Table, used: set<ObjectPath>, disposed: seq<ObjectPath>) {
    OneEach(documents) && Dummy !in used &&
    (forall o :: o in used <==> o in documents.Values || o in disposed) &&
    (forall i :: 0 <= i < |disposed| ==> disposed[i] !in documents.Values) &&
    (forall i, j :: 0 <= i < j < |disposed| ==> disposed[i] != disposed[j])
  }

  /* From one state to a later one: a document that is still there has its object, another
     one has an object that was never used. */
  ghost predicate Later(before: Table, used: set<ObjectPath>, after: Table, usedAfter: set<ObjectPath>) {
    used <= usedAfter && after.Values <= usedAfter &&
    forall k :: k in after ==> (k in before && after[k] == before[k]) || after[k] !in used
  }

  lemma LaterTwice(a: Table, ua: set<ObjectPath>, b: Table, ub: set<ObjectPath>, c: Table, uc: set<ObjectPath>)
    requires Later(a, ua, b, ub) && Later(b, ub, c, uc)
    ensures Later(a, ua, c, uc)
  {
  }

  lemma LaterSame(documents: Table, used: set<ObjectPath>, disposed: seq<ObjectPath>)
    requires Accounted(documents, used, disposed)
    ensures Later(documents, used, documents, used)
  {
  }

  // ---- A new app, a new document, and a document less --------------------------------------------

  lemma NewApp(apps: map<string, App>, nextid: nat, documents: Table, used: set<ObjectPath>, name: string)
    requires Apps(apps, nextid) && Tables(apps, documents) && Ids(apps, nextid, used) && name !in apps
    ensures
      var more := apps[name := App(nextid, name, map[], 0)];
      Apps(more, nextid + 1) && Tables(more, documents) && Ids(more, nextid + 1, used)
  {
  }

  function WithDocument(app: App, doc: Document): App {
    app.(docs := app.docs[doc.path := doc], nextid := app.nextid + 1)
  }

  lemma NewDocument(apps: map<string, App>, nextid: nat, documents: Table, used: set<ObjectPath>, name: string, doc: Document)
    requires Apps(apps, nextid) && Tables(apps, documents) && Ids(apps, nextid, used)
    requires name in apps && doc.id == apps[name].nextid && doc.path !in apps[name].docs
    ensures
      var ours := Doc(apps[name].id, doc.id);
      ours !in used && (name, doc.path) !in documents &&
      Tables(apps[name := WithDocument(apps[name], doc)], documents[(name, doc.path) := ours])
  {
    var ours, key := Doc(apps[name].id, doc.id), (name, doc.path);
    var more, table := apps[name := WithDocument(apps[name], doc)], documents[key := ours];
    assert key !in documents;
    forall n, p | n in more && p in more[n].docs
      ensures (n, p) in table && table[(n, p)] == Doc(more[n].id, more[n].docs[p].id) && more[n].docs[p].path == p
    {
      if (n, p) != key {
        assert n in apps && p in apps[n].docs && more[n].docs[p] == apps[n].docs[p];
      }
    }
  }

  lemma NewDocumentIds(apps: map<string, App>, nextid: nat, used: set<ObjectPath>, name: string, doc: Document)
    requires Apps(apps, nextid) && Ids(apps, nextid, used) && name in apps && doc.id == apps[name].nextid
    ensures
      var more := apps[name := WithDocument(apps[name], doc)];
      Apps(more, nextid) && Ids(more, nextid, used + {Doc(apps[name].id, doc.id)})
  {
  }

  lemma AccountedMore(documents: Table, used: set<ObjectPath>, disposed: seq<ObjectPath>, key: Key, here: ObjectPath)
    requires Accounted(documents, used, disposed) && key !in documents && here !in used && here != Dummy
    ensures Accounted(documents[key := here], used + {here}, disposed)
    ensures documents[key := here].Values == documents.Values + {here}
    ensures Later(documents, used, documents[key := here], used + {here})
  {
    var more := documents[key := here];
    forall o | o in documents.Values + {here} ensures o in more.Values {
      if o in documents.Values {
        var k :| k in documents && documents[k] == o;
        assert more[k] == o;
      } else {
        assert more[key] == o;
      }
    }
  }

  lemma AccountedLess(documents: Table, used: set<ObjectPath>, disposed: seq<ObjectPath>, key: Key)
    requires Accounted(documents, used, disposed) && key in documents
    ensures Accounted(documents - {key}, used, disposed + [documents[key]])
    ensures (documents - {key}).Values == documents.Values - {documents[key]}
    ensures Later(documents, used, documents - {key}, used)
  {
    var less, gone := documents - {key}, documents[key];
    forall o | o in documents.Values && o != gone ensures o in less.Values {
      var k :| k in documents && documents[k] == o;
      assert less[k] == o;
    }
  }

  function WithoutDocument(app: App, path: string): App {
    app.(docs := app.docs - {path})
  }

  lemma DocumentLess(apps: map<string, App>, nextid: nat, documents: Table, used: set<ObjectPath>, name: string, path: string)
    requires Apps(apps, nextid) && Tables(apps, documents) && Ids(apps, nextid, used)
    requires name in apps && path in apps[name].docs
    ensures (name, path) in documents
    ensures
      var less := apps[name := WithoutDocument(apps[name], path)];
      Apps(less, nextid) && Tables(less, documents - {(name, path)}) && Ids(less, nextid, used)
  {
    AppsLess(apps, nextid, name, path);
    TablesLess(apps, documents, name, path);
    IdsLess(apps, nextid, used, name, path);
    hide Apps, Tables, Ids;
  }

  lemma AppsLess(apps: map<string, App>, nextid: nat, name: string, path: string)
    requires Apps(apps, nextid) && name in apps
    ensures Apps(apps[name := WithoutDocument(apps[name], path)], nextid)
  {
  }

  lemma TablesLess(apps: map<string, App>, documents: Table, name: string, path: string)
    requires Tables(apps, documents) && name in apps && path in apps[name].docs
    ensures (name, path) in documents
    ensures Tables(apps[name := WithoutDocument(apps[name], path)], documents - {(name, path)})
  {
  }

  lemma IdsLess(apps: map<string, App>, nextid: nat, used: set<ObjectPath>, name: string, path: string)
    requires Ids(apps, nextid, used) && name in apps
    ensures Ids(apps[name := WithoutDocument(apps[name], path)], nextid, used)
  {
  }

  // The documents of the other clients.
  ghost function Others(documents: Table, name: string): Table {
    map k | k in documents && k.0 != name :: documents[k]
  }

  lemma AppLess(apps: map<string, App>, nextid: nat, documents: Table, used: set<ObjectPath>, name: string)
    requires Apps(apps, nextid) && Tables(apps, documents) && Ids(apps, nextid, used)
    ensures Apps(apps - {name}, nextid) && Tables(apps - {name}, Others(documents, name)) && Ids(apps - {name}, nextid, used)
  {
  }

  lemma TableHas(apps: map<string, App>, documents: Table, name: string, path: string)
    requires Tables(apps, documents)
    ensures (name, path) in documents <==> name in apps && path in apps[name].docs
    ensures (name, path) in documents ==> documents[(name, path)] == Doc(apps[name].id, apps[name].docs[path].id)
    ensures (name, path) !in documents ==> documents - {(name, path)} == documents
    ensures (name !in apps || apps[name].docs == map[]) ==> Others(documents, name) == documents
  {
  }

  // ---- What the documents are ---------------------------------------------------------------------

  // The path a client gave when it first opened a document, and where its text is now.
  datatype Paths = Paths(clientPath: string, dataPath: string)

  type View = map<Key, Paths>

  ghost function ViewOf(apps: map<string, App>): View {
    map n, p | n in apps && p in apps[n].docs :: (n, p) := Paths(apps[n].docs[p].clientPath, apps[n].docs[p].dataPath)
  }

  // Something happens to a client's documents: one is opened, again or for the first time, under
  // its normalised path; one is closed; the client has gone.
  datatype Event =
    | Open(key: Key, path: string, dataPath: string)
    | Close(key: Key)
    | Left(name: string)

  // A text that is not given elsewhere is where the client says the document is.
  function Apply(view: View, e: Event): View {
    match e
    case Open(key, path, dataPath) =>
      view[key := Paths(if key in view then view[key].clientPath else path, if dataPath == "" then path else dataPath)]
    case Close(key) => view - {key}
    case Left(name) => map k | k in view && k.0 != name :: view[k]
  }

  function ApplyAll(view: View, events: seq<Event>): View {
    if events == [] then view else Apply(ApplyAll(view, events[..|events| - 1]), events[|events| - 1])
  }

  function Normal(normpath: string -> string, path: string): string {
    if path == "" then path else normpath(path)
  }

  function Openings(normpath: string -> string, sender: string, open: seq<(string, string)>): (r: seq<Event>)
    ensures |r| == |open|
  {
    seq(|open|, i requires 0 <= i < |open| => Open((sender, Normal(normpath, open[i].0)), open[i].0, open[i].1))
  }

  lemma {:induction false} ApplyAppend(view: View, a: seq<Event>, b: seq<Event>)
    ensures ApplyAll(view, a + b) == ApplyAll(ApplyAll(view, a), b)
  {
    hide Apply;
    if b == [] {
      assert a + b == a;
    } else {
      assert (a + b)[..|a + b| - 1] == a + b[..|b| - 1];
      ApplyAppend(view, a, b[..|b| - 1]);
    }
  }

  lemma ApplyOne(view: View, e: Event)
    ensures ApplyAll(view, [e]) == Apply(view, e) && ApplyAll(view, []) == view
  {
    assert [e][..0] == [];
  }

  /** A list of documents that are opened: each has the text given for it where it is named last,
      and the documents that are not named are as before. */
  lemma {:induction false} OpeningsView(view: View, normpath: string -> string, sender: string, open: seq<(string, string)>, key: Key)
    ensures
      var after := ApplyAll(view, Openings(normpath, sender, open));
      ((key.0 != sender || forall i :: 0 <= i < |open| ==> Normal(normpath, open[i].0) != key.1) ==>
        (key in after <==> key in view) && (key in view ==> after[key] == view[key])) &&
      (key in view ==> key in after && after[key].clientPath == view[key].clientPath) &&
      forall i :: 0 <= i < |open| && LastNamed(normpath, sender, open, i, key) ==>
        key in after && after[key].dataPath == if open[i].1 == "" then open[i].0 else open[i].1
  {
    if open == [] {
      ApplyOne(view, Left(""));
    } else {
      var n := |open| - 1;
      var front, events := open[..n], Openings(normpath, sender, open);
      assert events[..n] == Openings(normpath, sender, front);
      OpeningsView(view, normpath, sender, front, key);
      forall i | 0 <= i < n && LastNamed(normpath, sender, open, i, key) ensures LastNamed(normpath, sender, front, i, key) {
        assert open[n] != front[i] || Normal(normpath, open[n].0) != key.1;
      }
    }
  }

  lemma OpeningsFirst(view: View, normpath: string -> string, sender: string, first: (string, string), open: seq<(string, string)>)
    ensures
      ApplyAll(view, Openings(normpath, sender, [first] + open)) ==
      ApplyAll(Apply(view, Open((sender, Normal(normpath, first.0)), first.0, first.1)), Openings(normpath, sender, open))
  {
    hide Apply, ApplyAll;
    var e := Open((sender, Normal(normpath, first.0)), first.0, first.1);
    assert Openings(normpath, sender, [first] + open) == [e] + Openings(normpath, sender, open);
    ApplyOne(view, e);
    ApplyAppend(view, [e], Openings(normpath, sender, open));
  }

  ghost predicate LastNamed(normpath: string -> string, sender: string, open: seq<(string, string)>, i: int, key: Key) {
    0 <= i < |open| && key == (sender, Normal(normpath, open[i].0)) &&
    forall j :: i < j < |open| ==> Normal(normpath, open[j].0) != key.1
  }

  predicate Opens(e: Event, key: Key) {
    e.Open? && e.key == key
  }

  predicate Ends(e: Event, key: Key) {
    (e.Close? && e.key == key) || (e.Left? && e.name == key.0)
  }

  // The last thing that happens to the document.
  ghost predicate LastOpened(events: seq<Event>, key: Key, i: nat) {
    i < |events| && Opens(events[i], key) && forall j :: i < j < |events| ==> !Opens(events[j], key) && !Ends(events[j], key)
  }

  // The first that happens to it since it was not there.
  ghost predicate FirstOpened(events: seq<Event>, key: Key, i: nat) {
    i < |events| && Opens(events[i], key) && (forall j :: i < j < |events| ==> !Ends(events[j], key)) &&
    forall j: nat :: j < i && Opens(events[j], key) ==> EndsBetween(events, key, j, i)
  }

  ghost predicate EndsBetween(events: seq<Event>, key: Key, j: nat, i: nat) {
    exists k :: j < k < i && k < |events| && Ends(events[k], key)
  }

  lemma LastMore(events: seq<Event>, e: Event, key: Key)
    ensures !Opens(e, key) && !Ends(e, key) ==> forall i: nat :: LastOpened(events, key, i) ==> LastOpened(events + [e], key, i)
    ensures Opens(e, key) ==> LastOpened(events + [e], key, |events|)
    ensures forall i: nat :: LastOpened(events + [e], key, i) ==>
      if i == |events| then Opens(e, key) else !Opens(e, key) && !Ends(e, key) && LastOpened(events, key, i)
  {
    var all := events + [e];
    forall i: nat | LastOpened(all, key, i)
      ensures if i == |events| then Opens(e, key) else !Opens(e, key) && !Ends(e, key) && LastOpened(events, key, i)
    {
      if i < |events| {
        assert all[|events|] == e && all[i] == events[i];
        forall j | i < j < |events| ensures !Opens(events[j], key) && !Ends(events[j], key) {
          assert all[j] == events[j];
        }
      }
    }
  }

  lemma FirstMore(events: seq<Event>, e: Event, key: Key)
    ensures !Ends(e, key) ==> forall i: nat :: FirstOpened(events, key, i) ==> FirstOpened(events + [e], key, i)
    ensures Opens(e, key) && (forall i: nat :: i < |events| && Opens(events[i], key) ==> EndsBetween(events, key, i, |events|)) ==>
      FirstOpened(events + [e], key, |events|)
  {
    var all := events + [e];
    forall j: nat, i: nat | i <= |events| && EndsBetween(events, key, j, i) ensures EndsBetween(all, key, j, i) {
      var k :| j < k < i && k < |events| && Ends(events[k], key);
      assert all[k] == events[k];
    }
    assert all[|events|] == e && forall j :: 0 <= j < |events| ==> all[j] == events[j];
  }

  /** After any events a document is there exactly when the last thing that happened to it was
      that it was opened. Its text is where this last opening says, and its client path is that of
      the first opening since it was not there. */
  lemma {:induction false} ViewAfter(events: seq<Event>, key: Key)
    ensures
      var view := ApplyAll(map[], events);
      (key in view <==> exists i: nat :: LastOpened(events, key, i)) &&
      (forall i: nat :: LastOpened(events, key, i) ==>
        key in view && view[key].dataPath == if events[i].dataPath == "" then events[i].path else events[i].dataPath) &&
      (key in view ==> exists i: nat :: FirstOpened(events, key, i) && view[key].clientPath == events[i].path)
  {
    if events != [] {
      var before, e := events[..|events| - 1], events[|events| - 1];
      assert events == before + [e];
      ViewAfter(before, key);
      LastMore(before, e, key);
      FirstMore(before, e, key);
      hide FirstOpened;
      if Opens(e, key) && key !in ApplyAll(map[], before) {
        AllEnded(before, key);
      }
    }
  }

  // What is not there has been closed since it was opened.
  lemma {:induction false} AllEnded(events: seq<Event>, key: Key)
    requires forall i: nat :: !LastOpened(events, key, i)
    ensures forall i: nat :: i < |events| && Opens(events[i], key) ==> EndsBetween(events, key, i, |events|)
  {
    if events != [] {
      var n := |events| - 1;
      var before, e := events[..n], events[n];
      assert events == before + [e];
      LastMore(before, e, key);
      if Ends(e, key) {
        forall i: nat | i < |events| && Opens(events[i], key) ensures EndsBetween(events, key, i, |events|) {
          assert i < n < |events| && Ends(events[n], key);
        }
      } else {
        AllEnded(before, key);
        forall i: nat | i < |events| && Opens(events[i], key) ensures EndsBetween(events, key, i, |events|) {
          assert before[i] == events[i];
          var k :| i < k < n && k < |before| && Ends(before[k], key);
          assert events[k] == before[k];
        }
      }
    }
  }

  lemma ViewHas(apps: map<string, App>, name: string, path: string)
    ensures (name, path) in ViewOf(apps) <==> name in apps && path in apps[name].docs
    ensures name in apps && path in apps[name].docs ==>
      ViewOf(apps)[(name, path)] == Paths(apps[name].docs[path].clientPath, apps[name].docs[path].dataPath)
  {
  }

  lemma SameView(a: View, b: View)
    requires forall k :: (k in a <==> k in b) && (k in a ==> a[k] == b[k])
    ensures a == b
  {
  }

  lemma ViewSame(apps: map<string, App>, more: map<string, App>, name: string)
    requires name in more && name !in apps && more == apps[name := more[name]] && more[name].docs == map[]
    ensures ViewOf(more) == ViewOf(apps)
  {
    hide ViewOf;
    forall k ensures (k in ViewOf(more) <==> k in ViewOf(apps)) && (k in ViewOf(more) ==> ViewOf(more)[k] == ViewOf(apps)[k]) {
      ViewHas(more, k.0, k.1);
      ViewHas(apps, k.0, k.1);
    }
    SameView(ViewOf(more), ViewOf(apps));
  }

  lemma ViewMore(apps: map<string, App>, more: map<string, App>, name: string, path: string, doc: Document)
    requires name in apps && name in more && more == apps[name := more[name]] && more[name].docs == apps[name].docs[path := doc]
    ensures ViewOf(more) == ViewOf(apps)[(name, path) := Paths(doc.clientPath, doc.dataPath)]
  {
    hide ViewOf;
    var view := ViewOf(apps)[(name, path) := Paths(doc.clientPath, doc.dataPath)];
    forall k ensures (k in ViewOf(more) <==> k in view) && (k in view ==> ViewOf(more)[k] == view[k]) {
      ViewHas(more, k.0, k.1);
      ViewHas(apps, k.0, k.1);
    }
    SameView(ViewOf(more), view);
  }

  // What was there, or has just been made, gets its data path.
  lemma ViewOpened(view: View, apps: map<string, App>, name: string, npath: string, path: string, dataPath: string)
    requires name in apps && npath in apps[name].docs
    requires ViewOf(apps) == if (name, npath) in view then view else view[(name, npath) := Paths(path, "")]
    ensures
      var doc := apps[name].docs[npath].(dataPath := if dataPath == "" then path else dataPath);
      ViewOf(apps[name := apps[name].(docs := apps[name].docs[npath := doc])]) ==
      Apply(view, Open((name, npath), path, dataPath))
  {
    var doc := apps[name].docs[npath].(dataPath := if dataPath == "" then path else dataPath);
    ViewHas(apps, name, npath);
    hide ViewOf;
    ViewMore(apps, apps[name := apps[name].(docs := apps[name].docs[npath := doc])], name, npath, doc);
  }

  lemma ViewLess(apps: map<string, App>, name: string, path: string)
    requires name in apps
    ensures ViewOf(apps[name := WithoutDocument(apps[name], path)]) == Apply(ViewOf(apps), Close((name, path)))
  {
    hide ViewOf;
    var less, view := apps[name := WithoutDocument(apps[name], path)], ViewOf(apps) - {(name, path)};
    forall k ensures (k in ViewOf(less) <==> k in view) && (k in view ==> ViewOf(less)[k] == view[k]) {
      ViewHas(less, k.0, k.1);
      ViewHas(apps, k.0, k.1);
    }
    SameView(ViewOf(less), view);
  }

  lemma ViewWithout(apps: map<string, App>, name: string)
    ensures ViewOf(apps - {name}) == Apply(ViewOf(apps), Left(name))
    ensures name !in apps ==> Apply(ViewOf(apps), Left(name)) == ViewOf(apps)
  {
    hide ViewOf;
    var less, view := apps - {name}, Apply(ViewOf(apps), Left(name));
    forall k ensures (k in ViewOf(less) <==> k in view) && (k in view ==> ViewOf(less)[k] == view[k]) {
      ViewHas(less, k.0, k.1);
      ViewHas(apps, k.0, k.1);
    }
    SameView(ViewOf(less), view);
    if name !in apps {
      assert less == apps;
    }
  }

  lemma ViewClosed(apps: map<string, App>, name: string, path: string)
    ensures (name !in apps || path !in apps[name].docs) ==> Apply(ViewOf(apps), Close((name, path))) == ViewOf(apps)
    ensures name in apps && apps[name].docs == map[] ==> Apply(ViewOf(apps), Left(name)) == ViewOf(apps)
  {
  }

  /* The client's documents under these paths have been opened: each has its object, the
     other documents are as before. */
  ghost predicate Opened(before: Table, after: Table, sender: string, paths: seq<string>, objects: seq<ObjectPath>) {
    |objects| == |paths| &&
    (forall i :: 0 <= i < |paths| ==> (sender, paths[i]) in after && after[(sender, paths[i])] == objects[i]) &&
    (forall k :: k in before ==> k in after && after[k] == before[k]) &&
    (forall k :: k in after && k !in before ==> k.0 == sender && k.1 in paths)
  }

  lemma NoneOpened(documents: Table, used: set<ObjectPath>, disposed: seq<ObjectPath>, sender: string)
    requires Accounted(documents, used, disposed)
    ensures Opened(documents, documents, sender, [], []) && Later(documents, used, documents, used)
  {
  }

  lemma OneOpened(a: Table, b: Table, c: Table, sender: string, paths: seq<string>, objects: seq<ObjectPath>, path: string, o: ObjectPath)
    requires Opened(a, b, sender, paths, objects)
    requires c == b[(sender, path) := o] && ((sender, path) in b ==> b[(sender, path)] == o)
    ensures Opened(a, c, sender, paths + [path], objects + [o])
  {
  }

  // The documents without some of a client's.
  ghost function Except(documents: Table, name: string, paths: set<string>): Table {
    map k | k in documents && !(k.0 == name && k.1 in paths) :: documents[k]
  }

  lemma ExceptOne(documents: Table, name: string, paths: set<string>, path: string)
    ensures Except(documents, name, {}) == documents
    ensures Except(documents, name, paths) - {(name, path)} == Except(documents, name, paths + {path})
    ensures (name, path) in documents && path !in paths ==>
      (name, path) in Except(documents, name, paths) && Except(documents, name, paths)[(name, path)] == documents[(name, path)]
  {
  }

  lemma ExceptAll(apps: map<string, App>, documents: Table, name: string)
    requires Tables(apps, documents) && name in apps
    ensures Except(documents, name, apps[name].docs.Keys) == Others(documents, name)
  {
  }

  // The documents of an app are in the table.
  ghost predicate InTable(app: App, documents: Table) {
    forall p :: p in app.docs ==> (app.name, p) in documents && documents[(app.name, p)] == Doc(app.id, app.docs[p].id)
  }

  lemma AppTable(apps: map<string, App>, documents: Table, name: string)
    requires Tables(apps, documents) && name in apps && apps[name].name == name
    ensures InTable(apps[name], documents)
  {
  }

  lemma MoveOne<T>(all: set<T>, gone: set<T>, todo: set<T>, e: T)
    requires gone + todo == all && gone * todo == {} && e in todo
    ensures gone + {e} + (todo - {e}) == all && (gone + {e}) * (todo - {e}) == {}
  {
  }

  lemma AppName(apps: map<string, App>, nextid: nat, name: string)
    requires Apps(apps, nextid) && name in apps
    ensures apps[name].name == name
  {
  }

  class Server {
    // os.path.normpath
    const normpath: string -> string
    var apps: map<string, App>
    var nextid: nat

    // The objects on the bus.
    var exported: set<ObjectPath>

    // The documents by client and path, all objects that were ever exported for one, and
    // those for which a service's dispose was called.
    ghost var documents: Table
    ghost var used: set<ObjectPath>
    ghost var disposed: seq<ObjectPath>

    // What holds in the middle of a call.
    ghost predicate Consistent()
      reads this
    {
      Apps(apps, nextid) && Tables(apps, documents) && Ids(apps, nextid, used) &&
      Accounted(documents, used, disposed) && exported == {Dummy} + documents.Values
    }

    // And between calls: every app has a document.
    ghost predicate Valid()
      reads this
    {
      Consistent() && forall n :: n in apps ==> apps[n].docs != map[]
    }

    constructor (normpath: string -> string)
      ensures Valid() && documents == map[] && used == {} && disposed == [] && apps == map[]
      ensures this.normpath == normpath
    {
      this.normpath := normpath;
      apps, nextid, exported := map[], 0, {Dummy};
      documents, used, disposed := map[], {}, [];
    }

    method EnsureApp(name: string)
      requires Consistent()
      modifies this`apps, this`nextid
      ensures Consistent() && name in apps && apps == old(apps)[name := apps[name]] && ViewOf(apps) == ViewOf(old(apps))
    {
      hide Apps, Tables, Ids, Accounted, ViewOf;
      if name !in apps {
        NewApp(apps, nextid, documents, used, name);
        ViewSame(apps, apps[name := App(nextid, name, map[], 0)], name);
        apps := apps[name := App(nextid, name, map[], 0)];
        nextid := nextid + 1;
      }
    }

    method MakeDocument(name: string, path: string, clientPath: string)
      requires Consistent() && name in apps && path !in apps[name].docs
      modifies this`apps, this`exported, this`documents, this`used
      ensures Consistent() && name in apps && apps == old(apps)[name := apps[name]] && (name, path) in documents
      ensures documents == old(documents)[(name, path) := documents[(name, path)]] && (name, path) !in old(documents)
      ensures path in apps[name].docs && Later(old(documents), old(used), documents, used)
      ensures ViewOf(apps) == ViewOf(old(apps))[(name, path) := Paths(clientPath, "")]
      ensures (name, path) !in ViewOf(old(apps))
    {
      hide Apps, Tables, Ids, Accounted, Later, ViewOf;
      ViewHas(apps, name, path);
      var doc := Document(apps[name].nextid, clientPath, path, "");
      ghost var here := Doc(apps[name].id, doc.id);
      NewDocument(apps, nextid, documents, used, name, doc);
      NewDocumentIds(apps, nextid, used, name, doc);
      AccountedMore(documents, used, disposed, (name, path), here);
      ViewMore(apps, apps[name := WithDocument(apps[name], doc)], name, path, doc);
      exported := exported + {Doc(apps[name].id, doc.id)};
      apps := apps[name := WithDocument(apps[name], doc)];
      documents := documents[(name, path) := here];
      used := used + {here};
    }

    function NormalPath(path: string): string {
      Normal(normpath, path)
    }

    method EnsureDocument(name: string, path: string, dataPath: string) returns (o: ObjectPath)
      requires Consistent() && name in apps
      modifies this`apps, this`exported, this`documents, this`used
      ensures Consistent() && name in apps && apps == old(apps)[name := apps[name]]
      ensures
        var key := (name, NormalPath(path));
        documents == old(documents)[key := o] && (key in old(documents) ==> o == old(documents)[key])
      ensures NormalPath(path) in apps[name].docs && Later(old(documents), old(used), documents, used)
      ensures ViewOf(apps) == Apply(ViewOf(old(apps)), Open((name, NormalPath(path)), path, dataPath))
    {
      hide Apps, Tables, Ids, Accounted, Later, ViewOf, Apply;
      ViewHas(apps, name, NormalPath(path));
      var npath := NormalPath(path);
      if npath !in apps[name].docs {
        MakeDocument(name, npath, path);
      } else {
        LaterSame(documents, used, disposed);
      }
      var doc := apps[name].docs[npath].(dataPath := if dataPath == "" then path else dataPath);
      SameDocument(apps, nextid, documents, used, name, npath, doc);
      ViewOpened(ViewOf(old(apps)), apps, name, npath, path, dataPath);
      apps := apps[name := apps[name].(docs := apps[name].docs[npath := doc])];
      o := Doc(apps[name].id, doc.id);
    }

    /** The object of the client's document, which is the one it had, or a new one. */
    method Parse(path: string, dataPath: string, sender: string) returns (o: ObjectPath)
      requires Valid()
      modifies this
      ensures Valid() && disposed == old(disposed) && o in exported
      ensures
        var key := (sender, NormalPath(path));
        documents == old(documents)[key := o] && (key in old(documents) ==> o == old(documents)[key])
      ensures Later(old(documents), old(used), documents, used)
      ensures ViewOf(apps) == Apply(ViewOf(old(apps)), Open((sender, NormalPath(path)), path, dataPath))
    {
      hide Apps, Tables, Ids, Accounted, Later, ViewOf, Apply;
      EnsureApp(sender);
      o := EnsureDocument(sender, path, dataPath);
      assert documents[(sender, NormalPath(path))] == o;
    }

    // The normalised paths of the project's document and of the open ones.
    function ProjectPaths(path: string, open: seq<(string, string)>): (r: seq<string>)
      ensures |r| == |open| + 1
    {
      [NormalPath(path)] + seq(|open|, i requires 0 <= i < |open| => NormalPath(open[i].0))
    }

    /** The objects of the project's document and of the open documents, and no other
        documents are added. */
    method ParseAll(path: string, open: seq<(string, string)>, sender: string) returns (objects: seq<ObjectPath>)
      requires Valid()
      modifies this
      ensures Valid() && disposed == old(disposed)
      ensures Opened(old(documents), documents, sender, ProjectPaths(path, open), objects)
      ensures Later(old(documents), old(used), documents, used)
      ensures ViewOf(apps) == ApplyAll(ViewOf(old(apps)), Openings(normpath, sender, [(path, "")] + open))
    {
      hide Apps, Tables, Ids, Accounted, Later, Opened, ViewOf, Apply, ApplyAll;
      ghost var paths := ProjectPaths(path, open);
      NoneOpened(documents, used, disposed, sender);
      EnsureApp(sender);
      var o := EnsureDocument(sender, path, "");
      OneOpened(old(documents), old(documents), documents, sender, [], [], NormalPath(path), o);
      assert [] + [NormalPath(path)] == paths[..1] && [] + [o] == [o];
      objects := [o];
      OpeningsFirst(ViewOf(old(apps)), normpath, sender, (path, ""), open);
      objects := EnsureDocuments(sender, open, objects, old(documents), old(used), paths);
    }

    method EnsureDocuments(sender: string, open: seq<(string, string)>, first: seq<ObjectPath>, ghost before: Table, ghost ever: set<ObjectPath>, ghost paths: seq<string>)
      returns (objects: seq<ObjectPath>)
      requires Consistent() && sender in apps && apps[sender].docs != map[]
      requires |paths| == |open| + 1 && forall i :: 0 <= i < |open| ==> paths[i + 1] == NormalPath(open[i].0)
      requires Opened(before, documents, sender, paths[..1], first) && Later(before, ever, documents, used)
      modifies this`apps, this`exported, this`documents, this`used
      ensures Consistent() && sender in apps && apps == old(apps)[sender := apps[sender]] && apps[sender].docs != map[]
      ensures Opened(before, documents, sender, paths, objects) && Later(before, ever, documents, used)
      ensures ViewOf(apps) == ApplyAll(ViewOf(old(apps)), Openings(normpath, sender, open))
    {
      hide Apps, Tables, Ids, Accounted, Later, Opened, ViewOf, Apply;
      objects := first;
      ghost var openings := Openings(normpath, sender, open);
      for i := 0 to |open|
        invariant Consistent()
        invariant sender in apps && apps == old(apps)[sender := apps[sender]] && apps[sender].docs != map[]
        invariant Opened(before, documents, sender, paths[..i + 1], objects) && Later(before, ever, documents, used)
        invariant ViewOf(apps) == ApplyAll(ViewOf(old(apps)), openings[..i])
      {
        ghost var table, usedBefore := documents, used;
        var next := EnsureDocument(sender, open[i].0, open[i].1);
        assert openings[..i + 1][..i] == openings[..i];
        assert paths[..i + 2] == paths[..i + 1] + [paths[i + 1]];
        OneOpened(before, table, documents, sender, paths[..i + 1], objects, paths[i + 1], next);
        LaterTwice(before, ever, table, usedBefore, documents, used);
        objects := objects + [next];
      }
      assert paths[..|open| + 1] == paths && openings[..|open|] == openings;
    }

    // The service lets the document go, and it is taken from the bus.
    method DisposeDocument(app: App, path: string)
      requires path in app.docs && (app.name, path) in documents && documents[(app.name, path)] == Doc(app.id, app.docs[path].id)
      requires Accounted(documents, used, disposed) && exported == {Dummy} + documents.Values
      modifies this`exported, this`documents, this`disposed
      ensures Accounted(documents, used, disposed) && exported == {Dummy} + documents.Values
      ensures documents == old(documents) - {(app.name, path)} && Later(old(documents), used, documents, used)
      ensures disposed == old(disposed) + [old(documents)[(app.name, path)]]
    {
      AccountedLess(documents, used, disposed, (app.name, path));
      var o := Doc(app.id, app.docs[path].id);
      assert Dummy != o;
      exported := exported - {o};
      disposed := disposed + [o];
      documents := documents - {(app.name, path)};
    }

    /** All the client's documents are disposed of, and the client is forgotten. */
    method DisposeApp(name: string)
      requires Consistent() && name in apps
      modifies this`apps, this`exported, this`documents, this`disposed
      ensures Consistent() && apps == old(apps) - {name} && old(disposed) <= disposed
      ensures old(apps)[name].docs == map[] ==> disposed == old(disposed)
      ensures documents == Others(old(documents), name) && Later(old(documents), used, documents, used)
      ensures ViewOf(apps) == Apply(ViewOf(old(apps)), Left(name))
    {
      hide Apps, Tables, Ids, Accounted, Later, Except, Others, ViewOf, Apply;
      ViewWithout(apps, name);
      AppName(apps, nextid, name);
      AppTable(apps, documents, name);
      ghost var table := documents;
      DisposeDocuments(apps[name]);
      ExceptAll(apps, table, name);
      AppLess(apps, nextid, table, used, name);
      apps := apps - {name};
    }

    method DisposeDocuments(app: App)
      requires InTable(app, documents)
      requires Accounted(documents, used, disposed) && exported == {Dummy} + documents.Values
      modifies this`exported, this`documents, this`disposed
      ensures Accounted(documents, used, disposed) && exported == {Dummy} + documents.Values
      ensures documents == Except(old(documents), app.name, app.docs.Keys) && Later(old(documents), used, documents, used)
      ensures old(disposed) <= disposed && (app.docs == map[] ==> disposed == old(disposed))
    {
      hide Accounted, Later, Except;
      var todo := app.docs.Keys;
      ghost var gone: set<string> := {};
      LaterSame(documents, used, disposed);
      ExceptOne(documents, app.name, {}, "");
      while todo != {}
        invariant gone + todo == app.docs.Keys && gone * todo == {}
        invariant old(disposed) <= disposed && (app.docs == map[] ==> disposed == old(disposed))
        invariant documents == Except(old(documents), app.name, gone)
        invariant Accounted(documents, used, disposed) && exported == {Dummy} + documents.Values
        invariant Later(old(documents), used, documents, used)
        decreases |todo|
      {
        var path :| path in todo;
        MoveOne(app.docs.Keys, gone, todo, path);
        DisposeNext(app, path, old(documents), gone);
        todo := todo - {path};
        gone := gone + {path};
      }
      assert gone == app.docs.Keys;
    }

    method DisposeNext(app: App, path: string, ghost before: Table, ghost gone: set<string>)
      requires InTable(app, before) && path in app.docs && path !in gone
      requires documents == Except(before, app.name, gone) && Later(before, used, documents, used)
      requires Accounted(documents, used, disposed) && exported == {Dummy} + documents.Values
      modifies this`exported, this`documents, this`disposed
      ensures documents == Except(before, app.name, gone + {path}) && Later(before, used, documents, used)
      ensures Accounted(documents, used, disposed) && exported == {Dummy} + documents.Values
      ensures old(disposed) <= disposed
    {
      hide Accounted, Later, Except;
      ghost var table := documents;
      ExceptOne(before, app.name, gone, path);
      DisposeDocument(app, path);
      LaterTwice(before, used, table, used, documents, used);
    }

    /** The client's document under this very path, if there is one, is disposed of. */
    method Dispose(path: string, sender: string)
      requires Valid()
      modifies this
      ensures Valid() && used == old(used) && Later(old(documents), used, documents, used)
      ensures documents == old(documents) - {(sender, normpath(path))}
      ensures disposed == old(disposed) +
        if (sender, normpath(path)) in old(documents) then [old(documents)[(sender, normpath(path))]] else []
      ensures ViewOf(apps) == Apply(ViewOf(old(apps)), Close((sender, normpath(path))))
    {
      hide Apps, Tables, Ids, Accounted, Later, Others, ViewOf, Apply;
      LaterSame(documents, used, disposed);
      var npath := normpath(path);
      ViewClosed(apps, sender, npath);
      TableHas(apps, documents, sender, npath);
      if sender in apps && npath in apps[sender].docs {
        RemoveDocument(sender, npath);
        if apps[sender].docs == map[] {
          ghost var table := documents;
          TableHas(apps, documents, sender, npath);
          ViewClosed(apps, sender, npath);
          DisposeApp(sender);
          LaterTwice(old(documents), used, table, used, documents, used);
        }
      }
    }

    method RemoveDocument(name: string, path: string)
      requires Consistent() && name in apps && path in apps[name].docs
      modifies this`apps, this`exported, this`documents, this`disposed
      ensures Consistent() && name in apps && apps == old(apps)[name := apps[name]]
      ensures documents == old(documents) - {(name, path)} && Later(old(documents), used, documents, used)
      ensures (name, path) in old(documents) && disposed == old(disposed) + [old(documents)[(name, path)]]
      ensures ViewOf(apps) == Apply(ViewOf(old(apps)), Close((name, path)))
    {
      hide Apps, Tables, Ids, Accounted, Later, ViewOf, Apply;
      ViewLess(apps, name, path);
      TableHas(apps, documents, name, path);
      AppName(apps, nextid, name);
      DocumentLess(apps, nextid, documents, used, name, path);
      DisposeDocument(apps[name], path);
      apps := apps[name := WithoutDocument(apps[name], path)];
    }

    /** A client that has gone leaves no documents. */
    method OnNameLost(oldOwner: string, newOwner: string)
      requires Valid()
      modifies this
      ensures Valid() && used == old(used) && Later(old(documents), used, documents, used)
      ensures documents == if newOwner == "" then Others(old(documents), oldOwner) else old(documents)
      ensures old(disposed) <= disposed
      ensures ViewOf(apps) == if newOwner == "" then Apply(ViewOf(old(apps)), Left(oldOwner)) else ViewOf(old(apps))
    {
      hide Apps, Tables, Ids, Accounted, Later, Others, ViewOf, Apply;
      LaterSame(documents, used, disposed);
      ViewWithout(apps, oldOwner);
      if newOwner != "" {
        return;
      }
      TableHas(apps, documents, oldOwner, "");
      if oldOwner !in apps {
        return;
      }
      DisposeApp(oldOwner);
    }
  }

  // New data for a document that is there.
  lemma SameDocument(apps: map<string, App>, nextid: nat, documents: Table, used: set<ObjectPath>, name: string, path: string, doc: Document)
    requires Apps(apps, nextid) && Tables(apps, documents) && Ids(apps, nextid, used)
    requires name in apps && path in apps[name].docs && doc.id == apps[name].docs[path].id && doc.path == apps[name].docs[path].path
    ensures
      var same := apps[name := apps[name].(docs := apps[name].docs[path := doc])];
      Apps(same, nextid) && Tables(same, documents) && Ids(same, nextid, used)
    ensures (name, path) in documents && documents[(name, path)] == Doc(apps[name].id, doc.id)
  {
  }

  // ---- Runs ---------------------------------------------------------------------------------------

  datatype Call =
    | Parse(sender: string, path: string, dataPath: string)
    | ParseAll(sender: string, path: string, open: seq<(string, string)>)
    | Dispose(sender: string, path: string)
    | NameLost(oldOwner: string, newOwner: string)

  // What a call means for the documents.
  function EventsOf(normpath: string -> string, call: Call): seq<Event> {
    match call
    case Parse(sender, path, dataPath) => [Open((sender, Normal(normpath, path)), path, dataPath)]
    // The project's document has no text of its own.
    case ParseAll(sender, path, open) => Openings(normpath, sender, [(path, "")] + open)
    case Dispose(sender, path) => [Close((sender, normpath(path)))]
    case NameLost(oldOwner, newOwner) => if newOwner == "" then [Left(oldOwner)] else []
  }

  function AllEvents(normpath: string -> string, calls: seq<Call>): seq<Event> {
    if calls == [] then []
    else AllEvents(normpath, calls[..|calls| - 1]) + EventsOf(normpath, calls[|calls| - 1])
  }

  // A state as far as the bus sees it, and what had been used by then.
  datatype Moment = Moment(documents: Table, used: set<ObjectPath>)

  ghost predicate InTime(trace: seq<Moment>) {
    (forall i :: 0 <= i < |trace| ==> OneEach(trace[i].documents)) &&
    (forall i, j :: 0 <= i <= j < |trace| ==> Later(trace[i].documents, trace[i].used, trace[j].documents, trace[j].used))
  }

  lemma InTimeMore(trace: seq<Moment>, m: Moment)
    requires InTime(trace) && trace != [] && OneEach(m.documents)
    requires Later(trace[|trace| - 1].documents, trace[|trace| - 1].used, m.documents, m.used)
    requires Later(m.documents, m.used, m.documents, m.used)
    ensures InTime(trace + [m])
  {
    var more, n := trace + [m], |trace|;
    forall i, j | 0 <= i <= j < |more| ensures Later(more[i].documents, more[i].used, more[j].documents, more[j].used) {
      if i < j == n {
        var a, b := trace[i], trace[n - 1];
        assert Later(a.documents, a.used, b.documents, b.used);
        LaterTwice(a.documents, a.used, b.documents, b.used, m.documents, m.used);
      }
    }
  }

  /** An object that stands for a document at two moments stands for the same document at
      both and all the time between them. */
  lemma NeverReused(trace: seq<Moment>, i: nat, m: nat, j: nat, k: Key, l: Key)
    requires InTime(trace) && i <= m <= j < |trace|
    requires k in trace[i].documents && l in trace[j].documents && trace[i].documents[k] == trace[j].documents[l]
    ensures k == l && k in trace[m].documents && trace[m].documents[k] == trace[i].documents[k]
  {
    var o := trace[i].documents[k];
    assert Later(trace[i].documents, trace[i].used, trace[j].documents, trace[j].used);
    assert Later(trace[i].documents, trace[i].used, trace[i].documents, trace[i].used);
    assert o in trace[i].documents.Values;
    assert Later(trace[i].documents, trace[i].used, trace[m].documents, trace[m].used);
    assert Later(trace[m].documents, trace[m].used, trace[j].documents, trace[j].used);
  }

  method Perform(server: Server, call: Call)
    requires server.Valid()
    modifies server
    ensures server.Valid() && Later(old(server.documents), old(server.used), server.documents, server.used)
    ensures old(server.disposed) <= server.disposed
    ensures ViewOf(server.apps) == ApplyAll(ViewOf(old(server.apps)), EventsOf(server.normpath, call))
  {
    hide ViewOf, Apply, ApplyAll, Apps, Tables, Ids, Accounted, Later, Opened, Others;
    ghost var view := ViewOf(server.apps);
    match call
    case Parse(sender, path, dataPath) =>
      ApplyOne(view, Open((sender, server.NormalPath(path)), path, dataPath));
      var _ := server.Parse(path, dataPath, sender);
    case ParseAll(sender, path, open) =>
      var _ := server.ParseAll(path, open, sender);
    case Dispose(sender, path) =>
      ApplyOne(view, Close((sender, server.normpath(path))));
      server.Dispose(path, sender);
    case NameLost(oldOwner, newOwner) =>
      ApplyOne(view, Left(oldOwner));
      server.OnNameLost(oldOwner, newOwner);
  }

  /** In any run the exported objects are those of the documents and the dummy, every app
      has a document, no object is used twice, and what is gone was disposed of once. The
      documents are what the calls made of them, one after the other. */
  method Run(normpath: string -> string, calls: seq<Call>) returns (server: Server, ghost trace: seq<Moment>)
    ensures server.Valid() && InTime(trace) && |trace| == |calls| + 1
    ensures trace[0] == Moment(map[], {}) && trace[|calls|] == Moment(server.documents, server.used)
    ensures ViewOf(server.apps) == ApplyAll(map[], AllEvents(normpath, calls)) && ViewOf(server.apps).Keys == server.documents.Keys
  {
    hide Apply, ApplyAll, ViewOf, Apps, Tables, Ids, Accounted, Later, InTime, OneEach, EventsOf;
    server := new Server(normpath);
    NothingYet();
    assert AllEvents(normpath, calls[..0]) == [] && ApplyAll(map[], []) == map[] by {
      ApplyOne(map[], Left(""));
    }
    trace := [Moment(server.documents, server.used)];
    for i := 0 to |calls|
      invariant fresh(server) && server.Valid() && InTime(trace) && |trace| == i + 1
      invariant trace[0] == Moment(map[], {}) && trace[i] == Moment(server.documents, server.used)
      invariant server.normpath == normpath && ViewOf(server.apps) == ApplyAll(map[], AllEvents(normpath, calls[..i]))
    {
      assert calls[..i + 1][..i] == calls[..i];
      ApplyAppend(map[], AllEvents(normpath, calls[..i]), EventsOf(normpath, calls[i]));
      Perform(server, calls[i]);
      LaterSame(server.documents, server.used, server.disposed);
      AccountedEach(server.documents, server.used, server.disposed);
      InTimeMore(trace, Moment(server.documents, server.used));
      trace := trace + [Moment(server.documents, server.used)];
    }
    assert calls[..|calls|] == calls;
    ViewKeys(server.apps, server.documents);
  }

  lemma NothingYet()
    ensures ViewOf(map[]) == map[] && InTime([Moment(map[], {})])
  {
    hide ViewOf;
    forall k ensures k !in ViewOf(map[]) {
      ViewHas(map[], k.0, k.1);
    }
    SameView(ViewOf(map[]), map[]);
  }

  lemma AccountedEach(documents: Table, used: set<ObjectPath>, disposed: seq<ObjectPath>)
    requires Accounted(documents, used, disposed)
    ensures OneEach(documents)
  {
  }

  lemma ViewKeys(apps: map<string, App>, documents: Table)
    requires Tables(apps, documents)
    ensures ViewOf(apps).Keys == documents.Keys
  {
    forall k ensures k in ViewOf(apps) <==> k in documents {
    }
  }

  /** A document that was parsed goes when it is disposed of under the same path, unless
      that path is empty: Python's normpath makes a dot of it. */
  method ParseAndDispose(server: Server, path: string, dataPath: string, sender: string)
    requires server.Valid() && server.normpath("") == "."
    modifies server
    ensures server.Valid()
    ensures (sender, server.NormalPath(path)) in server.documents <==> path == ""
  {
    hide Apps, Tables, Ids, Accounted, Later, ViewOf, Apply;
    var _ := server.Parse(path, dataPath, sender);
    server.Dispose(path, sender);
  }
}
