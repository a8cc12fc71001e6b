/** The files behind the cache: where a fetched page is stored and what a request is answered with. */
module PageStore {
  import opened Bytes
  import opened CacheModel
  import opened HeaderStrip
  import opened QueryCache

  // ----- file names

  function NoSpaces(s: string): string {
    if s == [] then []
    else var n := |s| - 1; NoSpaces(s[..n]) + if s[n] == ' ' then [] else [s[n]]
  }

  function Underscored(s: string): (r: string)
    ensures |r| == |s|
  {
    seq(|s|, i requires 0 <= i < |s| => if s[i] == '/' then '_' else s[i])
  }

  /** Address and resource joined, with every slash of the resource an underscore and no spaces. */
  function FileName(key: Key): string {
    NoSpaces(key.address + Underscored(key.resource))
  }

  /** Removing spaces: none are left, and a text without them stays. */
  lemma NoSpacesExactly(s: string)
    ensures ' ' !in NoSpaces(s) && (NoSpaces(s) == s <==> ' ' !in s)
  {
    NoSpaceLeft(s);
    SpacelessStays(s);
  }

  /** A space more or less makes no difference. */
  lemma SpaceMakesNoDifference(s: string, t: string)
    ensures NoSpaces(s + " " + t) == NoSpaces(s + t)
  {
    var x := s + " ";
    assert x[..|s|] == s;
    assert NoSpaces(x) == NoSpaces(s);
    NoSpacesConcat(x, t);
    NoSpacesConcat(s, t);
  }

  lemma {:induction false} NoSpaceLeft(s: string)
    ensures ' ' !in NoSpaces(s) && |NoSpaces(s)| <= |s| && (' ' in s ==> |NoSpaces(s)| < |s|)
  {
    if s != [] {
      NoSpaceLeft(s[..|s| - 1]);
    }
  }

  lemma {:induction false} SpacelessStays(s: string)
    ensures ' ' !in s ==> NoSpaces(s) == s
    ensures ' ' in s ==> NoSpaces(s) != s
  {
    NoSpaceLeft(s);
    if s != [] && ' ' !in s {
      var n := |s| - 1;
      assert s[n] in s;
      SpacelessStays(s[..n]);
    }
  }

  lemma {:induction false} NoSpacesConcat(s: string, t: string)
    ensures NoSpaces(s + t) == NoSpaces(s) + NoSpaces(t)
    decreases |t|
  {
    if t == [] {
      assert s + t == s;
    } else {
      var n := |t| - 1;
      assert (s + t)[..|s| + n] == s + t[..n];
      NoSpacesConcat(s, t[..n]);
    }
  }

  /** The file name of a page without spaces: the address, then the resource with an underscore for every slash. */
  lemma FileNameExactly(key: Key)
    requires ' ' !in key.address && ' ' !in key.resource
    ensures var name, a := FileName(key), |key.address|;
            && |name| == a + |key.resource| && name[..a] == key.address
            && forall i :: 0 <= i < |key.resource| ==>
                 name[a + i] == if key.resource[i] == '/' then '_' else key.resource[i]
  {
    var joined := key.address + Underscored(key.resource);
    assert ' ' !in Underscored(key.resource);
    SpacelessStays(joined);
  }

  /** Spaces anywhere in a page make no difference to its file name. */
  lemma FileNameIgnoresSpaces(key: Key)
    ensures ' ' !in FileName(key)
    ensures FileName(key) == FileName(Key(NoSpaces(key.address), NoSpaces(key.resource)))
  {
    NoSpaceLeft(key.address + Underscored(key.resource));
    NoSpacesConcat(key.address, Underscored(key.resource));
    NoSpacesConcat(NoSpaces(key.address), Underscored(NoSpaces(key.resource)));
    UnderscoredCommutes(key.resource);
    NoSpaceLeft(key.address);
    SpacelessStays(NoSpaces(key.address));
    NoSpaceLeft(Underscored(key.resource));
    SpacelessStays(NoSpaces(Underscored(key.resource)));
  }

  lemma {:induction false} UnderscoredCommutes(s: string)
    ensures Underscored(NoSpaces(s)) == NoSpaces(Underscored(s))
  {
    if s != [] {
      var n := |s| - 1;
      UnderscoredCommutes(s[..n]);
      assert Underscored(s)[..n] == Underscored(s[..n]);
      assert Underscored(NoSpaces(s[..n]) + [s[n]]) == Underscored(NoSpaces(s[..n])) + Underscored([s[n]]);
    }
  }

  /** Two texts that differ at most in having slashes for underscores. */
  predicate SameButSlashes(s: string, t: string) {
    |s| == |t| && forall i :: 0 <= i < |s| ==> s[i] == t[i] || (s[i] in {'/', '_'} && t[i] in {'/', '_'})
  }

  /** Two pages of one address, without spaces, share a file exactly when they agree up to slash and underscore. */
  lemma SameFileExactly(address: string, s: string, t: string)
    requires ' ' !in address && ' ' !in s && ' ' !in t
    ensures FileName(Key(address, s)) == FileName(Key(address, t)) <==> SameButSlashes(s, t)
  {
    FileNameExactly(Key(address, s));
    FileNameExactly(Key(address, t));
    var f, g, a := FileName(Key(address, s)), FileName(Key(address, t)), |address|;
    if SameButSlashes(s, t) {
      forall i | 0 <= i < |f| ensures f[i] == g[i] {
        if i < a {
          assert f[i] == f[..a][i] && g[i] == g[..a][i];
        } else {
          var j := i - a;
          assert f[a + j] == if s[j] == '/' then '_' else s[j];
          assert g[a + j] == if t[j] == '/' then '_' else t[j];
        }
      }
    } else if f == g {
      forall i | 0 <= i < |s| ensures s[i] == t[i] || (s[i] in {'/', '_'} && t[i] in {'/', '_'}) {
        assert f[a + i] == g[a + i];
      }
    }
  }

  /** rm_space: the kept characters move to the front of the same buffer; returns how many there are. */
  method RmSpace(text: array<char>) returns (m: nat)
    modifies text
    ensures m <= text.Length && text[..m] == NoSpaces(old(text[..]))
  {
    m := 0;
    ghost var was := text[..];
    for n := 0 to text.Length
      invariant m <= n && text[..m] == NoSpaces(was[..n])
      invariant forall k :: n <= k < text.Length ==> text[k] == was[k]
    {
      ghost var kept := text[..m];
      OneMoreCharacter(was, n);
      text[m] := text[n];
      assert text[..m] == kept;
      if text[m] != ' ' {
        assert text[..m + 1] == kept + [was[n]];
        m := m + 1;
      }
    }
    assert was[..text.Length] == was;
  }

  lemma OneMoreCharacter(s: string, n: nat)
    requires n < |s|
    ensures NoSpaces(s[..n + 1]) == NoSpaces(s[..n]) + if s[n] == ' ' then [] else [s[n]]
  {
    assert s[..n + 1][..n] == s[..n];
  }

  method FileNameOf(key: Key) returns (name: string)
    ensures name == FileName(key)
  {
    var a, n := |key.address|, |key.address| + |key.resource|;
    var text := new char[n](i requires 0 <= i < n => (key.address + key.resource)[i]);
    for i := a to n
      invariant text[..a] == key.address
      invariant forall k :: a <= k < n ==>
                  text[k] == if k < i && key.resource[k - a] == '/' then '_' else key.resource[k - a]
    {
      if text[i] == '/' {
        text[i] := '_';
      }
    }
    assert text[..] == key.address + Underscored(key.resource);
    var m := RmSpace(text);
    name := text[..m];
  }

  // ----- the store

  /** A response saved for a page. */
  datatype Write = Write(key: Key, content: seq<byte>)

  /** The files after some writes: each replaces the file of its name. */
  function Files(ws: seq<Write>): map<string, seq<byte>> {
    if ws == [] then map[] else var n := |ws| - 1; Files(ws[..n])[FileName(ws[n].key) := ws[n].content]
  }

  /** The reference: responses kept by page. */
  function Pages(ws: seq<Write>): map<Key, seq<byte>> {
    if ws == [] then map[] else var n := |ws| - 1; Pages(ws[..n])[ws[n].key := ws[n].content]
  }

  function Lookup<K, V>(m: map<K, V>, k: K): Option<V> {
    if k in m then Some(m[k]) else None
  }

  /** A request with what the web server would answer: a response, or nothing new (status 304). */
  datatype Visit = Visit(request: Request, response: Option<seq<byte>>)

  function Requests(vs: seq<Visit>): (r: seq<Request>)
    ensures |r| == |vs|
  {
    seq(|vs|, i requires 0 <= i < |vs| => vs[i].request)
  }

  /** What a visit writes: the response of a fetch that brings one. */
  function WritesOf(cache: seq<Entry>, v: Visit): seq<Write> {
    if !Hit(cache, v.request) && v.response.Some? then [Write(v.request.key, v.response.value)] else []
  }

  function Writes(vs: seq<Visit>): seq<Write> {
    if vs == [] then []
    else var n := |vs| - 1; Writes(vs[..n]) + WritesOf(Run(Requests(vs[..n])), vs[n])
  }

  /** A stored response is sent without its header; a missing file sends nothing. */
  function SentFrom(stored: Option<seq<byte>>): seq<byte> {
    match stored
    case None => []
    case Some(response) => Stripped(response)
  }

  /** What the last visitor of a run is sent. */
  function Reply(vs: seq<Visit>): seq<byte>
    requires vs != []
  {
    SentFrom(Lookup(Files(Writes(vs)), FileName(vs[|vs| - 1].request.key)))
  }

  /** What it should be sent. */
  function OwnReply(vs: seq<Visit>): seq<byte>
    requires vs != []
  {
    SentFrom(Lookup(Pages(Writes(vs)), vs[|vs| - 1].request.key))
  }

  // ----- one run: whose response the file of a page holds

  /** w is the latest write of the page. */
  predicate LastWrite(ws: seq<Write>, key: Key, w: nat) {
    w < |ws| && ws[w].key == key && forall j :: w < j < |ws| ==> ws[j].key != key
  }

  /** w is the latest write of the file. */
  predicate LastToFile(ws: seq<Write>, name: string, w: nat) {
    w < |ws| && FileName(ws[w].key) == name && forall j :: w < j < |ws| ==> FileName(ws[j].key) != name
  }

  lemma {:induction false} PageHoldsLastWrite(ws: seq<Write>, key: Key, w: nat)
    requires LastWrite(ws, key, w)
    ensures Lookup(Pages(ws), key) == Some(ws[w].content)
  {
    if w < |ws| - 1 {
      PageHoldsLastWrite(ws[..|ws| - 1], key, w);
    }
  }

  lemma {:induction false} FileHoldsLastWrite(ws: seq<Write>, name: string, w: nat)
    requires LastToFile(ws, name, w)
    ensures Lookup(Files(ws), name) == Some(ws[w].content)
  {
    if w < |ws| - 1 {
      FileHoldsLastWrite(ws[..|ws| - 1], name, w);
    }
  }

  lemma {:induction false} LastToFileExists(ws: seq<Write>, name: string, i: nat) returns (w: nat)
    requires i < |ws| && FileName(ws[i].key) == name
    ensures i <= w && LastToFile(ws, name, w)
    decreases |ws| - i
  {
    w := i;
    if j: nat :| i < j < |ws| && FileName(ws[j].key) == name {
      w := LastToFileExists(ws, name, j);
    }
  }

  /** Write j put a page other than key in key's file. */
  predicate Overwrites(ws: seq<Write>, key: Key, j: nat) {
    j < |ws| && ws[j].key != key && FileName(ws[j].key) == FileName(key)
  }

  /** For every page ever stored: the file a hit reads is its own latest response, whatever the contents, exactly when
      no other page with the same file name was stored since; otherwise it is the response of such a page. */
  lemma OwnFileExactly(ws: seq<Write>, key: Key, i: nat) returns (w: nat)
    requires LastWrite(ws, key, i)
    ensures i <= w && LastToFile(ws, FileName(key), w)
    ensures Lookup(Files(ws), FileName(key)) == Some(ws[w].content) && Lookup(Pages(ws), key) == Some(ws[i].content)
    ensures w == i <==> forall j :: i < j ==> !Overwrites(ws, key, j)
    ensures w != i ==> Overwrites(ws, key, w)
  {
    w := LastToFileExists(ws, FileName(key), i);
    FileHoldsLastWrite(ws, FileName(key), w);
    PageHoldsLastWrite(ws, key, i);
    if w == i {
      forall j: nat | i < j ensures !Overwrites(ws, key, j) {
      }
    } else {
      assert Overwrites(ws, key, w);
    }
  }

  // ----- all runs: which sets of pages can share the store

  predicate VisitsOnly(pages: set<Key>, vs: seq<Visit>) {
    forall i :: 0 <= i < |vs| ==> vs[i].request.key in pages
  }

  /** Whatever is visited among these pages, everyone is sent the page asked for. */
  ghost predicate ServesOwnPages(pages: set<Key>) {
    forall vs :: vs != [] && VisitsOnly(pages, vs) ==> Reply(vs) == OwnReply(vs)
  }

  predicate NamesDiffer(pages: set<Key>) {
    forall a, b :: a in pages && b in pages && FileName(a) == FileName(b) ==> a == b
  }

  predicate WritesOnly(pages: set<Key>, ws: seq<Write>) {
    forall i :: 0 <= i < |ws| ==> ws[i].key in pages
  }

  lemma {:induction false} VisitsWriteOnly(pages: set<Key>, vs: seq<Visit>)
    requires VisitsOnly(pages, vs)
    ensures WritesOnly(pages, Writes(vs))
  {
    if vs != [] {
      VisitsWriteOnly(pages, vs[..|vs| - 1]);
    }
  }

  lemma {:induction false} StoreByNameIsStoreByPage(pages: set<Key>, ws: seq<Write>, key: Key)
    requires NamesDiffer(pages) && WritesOnly(pages, ws) && key in pages
    ensures Lookup(Files(ws), FileName(key)) == Lookup(Pages(ws), key)
  {
    if ws != [] {
      StoreByNameIsStoreByPage(pages, ws[..|ws| - 1], key);
    }
  }

  /** Fetch a, fetch b, ask for a again. */
  function Clash(a: Key, b: Key, x: byte, y: byte): seq<Visit> {
    [Visit(Request(a, 0, 9), Some(END + [x])), Visit(Request(b, 0, 9), Some(END + [y])), Visit(Request(a, 0, 9), None)]
  }

  lemma ClashWrites(a: Key, b: Key, x: byte, y: byte)
    requires a != b
    ensures var vs := Clash(a, b, x, y);
            && Hit(Run(Requests(vs[..2])), vs[2].request)
            && Writes(vs) == [Write(a, END + [x]), Write(b, END + [y])]
  {
    var v3 := Clash(a, b, x, y);
    var v1, v2 := v3[..1], v3[..2];
    assert v1[..0] == [] && v2[..1] == v1;
    var r1, r2 := Requests(v1), Requests(v2);
    assert Requests([]) == [] && r1[..0] == [] && r2[..1] == r1;
    assert Run(r1) == [Entry(a, 9)];
    assert Find([Entry(a, 9)], b) == 1;
    assert Run(r2) == [Entry(b, 9), Entry(a, 9)];
    FindUnique([Entry(b, 9), Entry(a, 9)], a, 1);
    assert Writes(v1) == [Write(a, END + [x])];
    assert Writes(v2) == [Write(a, END + [x]), Write(b, END + [y])];
  }

  lemma StripsToOne(x: byte)
    ensures Stripped(END + [x]) == [x]
  {
    StripRecoversBody([], [x]);
    assert [] + END == END;
  }

  /** With equal file names the hit on a is sent b's page. */
  lemma SharedNameSendsOtherPage(a: Key, b: Key, x: byte, y: byte)
    requires a != b && FileName(a) == FileName(b)
    ensures Reply(Clash(a, b, x, y)) == [y] && OwnReply(Clash(a, b, x, y)) == [x]
  {
    var ws := [Write(a, END + [x]), Write(b, END + [y])];
    ClashWrites(a, b, x, y);
    FileHoldsLastWrite(ws, FileName(a), 1);
    PageHoldsLastWrite(ws, a, 0);
    StripsToOne(x);
    StripsToOne(y);
  }

  /** Visitors of these pages are sent the pages they ask for, whatever the run, exactly when no two of the pages have
      the same file name. */
  lemma OwnPagesExactly(pages: set<Key>)
    ensures ServesOwnPages(pages) <==> NamesDiffer(pages)
  {
    if NamesDiffer(pages) {
      forall vs: seq<Visit> | vs != [] && VisitsOnly(pages, vs) ensures Reply(vs) == OwnReply(vs) {
        VisitsWriteOnly(pages, vs);
        StoreByNameIsStoreByPage(pages, Writes(vs), vs[|vs| - 1].request.key);
      }
    } else {
      var a, b :| a in pages && b in pages && FileName(a) == FileName(b) && a != b;
      SharedNameSendsOtherPage(a, b, 1, 2);
      assert VisitsOnly(pages, Clash(a, b, 1, 2));
    }
  }

  /** Slash and underscore give the same name, so there are such pages. */
  lemma SlashAndUnderscoreClash(address: string, s: string, t: string)
    ensures FileName(Key(address, s + "/" + t)) == FileName(Key(address, s + "_" + t))
  {
    assert Underscored(s + "/" + t) == Underscored(s + "_" + t);
  }

  // ----- the proxy with its files

  class Server {
    const proxy: Proxy
    var files: map<string, seq<byte>>

    constructor (proxy: Proxy)
      ensures this.proxy == proxy && files == map[]
    {
      this.proxy, files := proxy, map[];
    }

    /** A fetched response replaces the file of its name; then the client is sent the file without its header. */
    method StoreAndSend(key: Key, response: Option<seq<byte>>, ghost ws: seq<Write>) returns (sent: seq<byte>)
      requires files == Files(ws)
      modifies this`files
      ensures files == Files(ws + if response.Some? then [Write(key, response.value)] else [])
      ensures sent == SentFrom(Lookup(files, FileName(key)))
    {
      var name := FileNameOf(key);
      if response.Some? {
        files := files[name := response.value];
        ghost var longer := ws + [Write(key, response.value)];
        assert longer[..|longer| - 1] == ws;
      } else {
        assert ws + [] == ws;
      }
      sent := [];
      if name in files {
        sent := SendToClient(files[name]);
      }
    }

    /** One request, on a cache holding `entries` and files written by `ws`: the cache and the files move on as in the
        model, and the client is sent what its file then holds. */
    method Answer(v: Visit, ghost entries: seq<Entry>, ghost ws: seq<Write>) returns (sent: seq<byte>)
      requires proxy.Valid() && proxy.cache.Contents() == entries && files == Files(ws)
      modifies this, proxy.cache, proxy.cache.nodes
      ensures proxy.cache.Contents() == Handle(entries, v.request)
      ensures proxy.Valid() <==> proxy.cache.repaired || !Evicts(entries, v.request)
      ensures files == Files(ws + WritesOf(entries, v))
      ensures sent == SentFrom(Lookup(files, FileName(v.request.key)))
    {
      var answer := proxy.HandleRequest(v.request);
      assert answer == FromCache <==> Hit(entries, v.request);
      sent := StoreAndSend(v.request.key, if answer == FromCache then None else v.response, ws);
    }
  }

  /** What a visit leaves in the files: a fetch that brings a response keeps it, a 304 or a hit changes nothing. */
  predicate Keeps(files: map<string, seq<byte>>, answer: Answer, v: Visit, after: map<string, seq<byte>>) {
    after == if v.response.Some? && answer != FromCache then files[FileName(v.request.key) := v.response.value]
             else files
  }

  lemma FilesAfter(ws: seq<Write>, entries: seq<Entry>, v: Visit)
    ensures Keeps(Files(ws), AnswerTo(entries, v.request), v, Files(ws + WritesOf(entries, v)))
  {
    var more := WritesOf(entries, v);
    if more == [] {
      assert ws + more == ws;
    } else {
      assert (ws + more)[..|ws|] == ws;
    }
  }

  lemma SentAfter(files: map<string, seq<byte>>, answer: Answer, v: Visit, after: map<string, seq<byte>>)
    requires Keeps(files, answer, v, after)
    ensures var name := FileName(v.request.key);
            SentFrom(Lookup(after, name))
            == if v.response.Some? && answer != FromCache then Stripped(v.response.value)
               else if name in files then Stripped(files[name]) else []
  {
  }

  /** What the visitor is sent: a fetch that brings a response sends that response, a 304 or a hit the file as it was,
      each without its header. */
  lemma ReplyExactly(vs: seq<Visit>, v: Visit)
    ensures var files, name := Files(Writes(vs)), FileName(v.request.key);
            var answer := AnswerTo(Run(Requests(vs)), v.request);
            && Keeps(files, answer, v, Files(Writes(vs + [v])))
            && Reply(vs + [v]) == if v.response.Some? && answer != FromCache then Stripped(v.response.value)
                                  else if name in files then Stripped(files[name]) else []
  {
    OneMoreVisit(vs, v);
    FilesAfter(Writes(vs), Run(Requests(vs)), v);
    SentAfter(Files(Writes(vs)), AnswerTo(Run(Requests(vs)), v.request), v, Files(Writes(vs + [v])));
  }

  /** Those moves, visit by visit, make up the run. */
  lemma OneMoreVisit(vs: seq<Visit>, v: Visit)
    ensures var entries, ws := Run(Requests(vs)), Writes(vs) + WritesOf(Run(Requests(vs)), v);
            && Run(Requests(vs + [v])) == Handle(entries, v.request)
            && Writes(vs + [v]) == ws
            && Reply(vs + [v]) == SentFrom(Lookup(Files(ws), FileName(v.request.key)))
  {
    var all := vs + [v];
    assert all[..|vs|] == vs;
    var rs := Requests(all);
    assert rs[..|vs|] == Requests(vs) && rs[|vs|] == v.request;
  }
}
