/**
 * The listing scenarios of the pointer database service, over a store holding
 * seven paths with the same pointer bytes.  Each scenario is computed entry by
 * entry, from the end of the store towards its start.
 */
module PointerDbFixtures {
  import opened Wrappers
  import opened Bytes
  import opened SortedKv
  import opened PointerDb
  import opened StorjNodeIds

  /** The store of the listing scenarios, in key order. */
  function Store(v: Value): seq<Entry> {
    [Entry("müsic", v), Entry("müsic/album/söng3.mp3", v), Entry("müsic/söng1.mp3", v),
     Entry("müsic/söng2.mp3", v), Entry("müsic/söng4.mp3", v), Entry("sample.😶", v),
     Entry("ビデオ/movie.mkv", v)]
  }

  /** The entries under "müsic/", relative to it. */
  function Music(v: Value): seq<Entry> {
    [Entry("album/söng3.mp3", v), Entry("söng1.mp3", v), Entry("söng2.mp3", v), Entry("söng4.mp3", v)]
  }

  /** A request with no API key. */
  function Req(prefix: string, startAfter: string, endBefore: string, recursive: bool, limit: int, flags: int): ListRequest {
    ListRequest(prefix, startAfter, endBefore, recursive, limit, flags, [])
  }

  /** The pointer an item carries for the given metadata flags. */
  function Ptr(v: Value, flags: int): Option<Value> {
    if flags != META_NONE then Some(v) else None
  }

  /** With no prefix and no bounds the listing is built from the whole store. */
  lemma WholeStore(s: seq<Entry>, recursive: bool, limit: int, flags: int)
    ensures Listing(s, Req("", "", "", recursive, limit, flags)) == Collapse(s, recursive, flags)
  {
    UnderNoPrefix(s);
    BetweenUnbounded(s);
  }

  /** A recursive listing of seven entries lists each of them in turn. */
  lemma RecursiveSeven(s: seq<Entry>, flags: int)
    requires |s| == 7
    ensures Collapse(s, true, flags) ==
      [ItemOf(s[0], true, flags), ItemOf(s[1], true, flags), ItemOf(s[2], true, flags), ItemOf(s[3], true, flags),
       ItemOf(s[4], true, flags), ItemOf(s[5], true, flags), ItemOf(s[6], true, flags)]
  {
    CollapseRecursive(s, flags);
  }

  /** A recursive listing names every stored path in order, with pointers exactly when flags are set. */
  lemma ListRecursiveFixture(v: Value, flags: int)
    ensures var ptr := Ptr(v, flags);
      List(Store(v), Req("", "", "", true, 0, flags), []) ==
      Ok(ListResponse([Item("müsic", ptr, false), Item("müsic/album/söng3.mp3", ptr, false),
                       Item("müsic/söng1.mp3", ptr, false), Item("müsic/söng2.mp3", ptr, false),
                       Item("müsic/söng4.mp3", ptr, false), Item("sample.😶", ptr, false),
                       Item("ビデオ/movie.mkv", ptr, false)], false))
  {
    WholeStore(Store(v), true, 0, flags);
    RecursiveSeven(Store(v), flags);
  }

  /** A wrong API key is refused. */
  lemma ListWrongKeyFixture(v: Value)
    ensures List(Store(v), ListRequest("", "", "", true, 0, 1, StringBytes("wrong key")), []) ==
      Err(Unauthenticated("Invalid API credential"))
  {
  }

  /** A recursive listing cut to three items reports that more remain. */
  lemma ListLimitFixture(v: Value)
    ensures List(Store(v), Req("", "", "", true, 3, META_NONE), []) ==
      Ok(ListResponse([Item("müsic", None, false), Item("müsic/album/söng3.mp3", None, false),
                       Item("müsic/söng1.mp3", None, false)], true))
  {
    var s := Store(v);
    WholeStore(s, true, 3, META_NONE);
    RecursiveSeven(s, META_NONE);
    var items := Collapse(s, true, META_NONE);
    assert |items| == 7;
    assert items[..3] == [ItemOf(s[0], true, META_NONE), ItemOf(s[1], true, META_NONE), ItemOf(s[2], true, META_NONE)];
  }

  /** A key that differs from p at some position of p does not start with p. */
  lemma Diverge(p: string, k: string, i: nat)
    requires i < |p| && i < |k| && p[i] != k[i]
    ensures !(p <= k)
  {
  }

  /** Which stored keys lie under "müsic/", and what they are relative to it. */
  lemma MusicKeys()
    ensures !("müsic/" <= "müsic")
    ensures "müsic/" <= "müsic/album/söng3.mp3" && "müsic/album/söng3.mp3"[6..] == "album/söng3.mp3"
    ensures "müsic/" <= "müsic/söng1.mp3" && "müsic/söng1.mp3"[6..] == "söng1.mp3"
    ensures "müsic/" <= "müsic/söng2.mp3" && "müsic/söng2.mp3"[6..] == "söng2.mp3"
    ensures "müsic/" <= "müsic/söng4.mp3" && "müsic/söng4.mp3"[6..] == "söng4.mp3"
    ensures !("müsic/" <= "sample.😶")
    ensures !("müsic/" <= "ビデオ/movie.mkv")
  {
    Diverge("müsic/", "sample.😶", 0);
    Diverge("müsic/", "ビデオ/movie.mkv", 0);
  }

  /** The prefix "müsic/" selects the four paths below it. */
  lemma UnderMusic(v: Value)
    ensures Under(Store(v), "müsic/") == Music(v)
  {
    var s := Store(v);
    MusicKeys();
    assert Under(s[7..], "müsic/") == [];
    assert Under(s[6..], "müsic/") == [];
    assert Under(s[5..], "müsic/") == [];
    assert Under(s[4..], "müsic/") == Music(v)[3..];
    assert Under(s[3..], "müsic/") == Music(v)[2..];
    assert Under(s[2..], "müsic/") == Music(v)[1..];
    assert Under(s[1..], "müsic/") == Music(v);
  }

  /** The segment of each deeper key; one lemma each keeps the literal evaluations apart. */
  lemma SegmentAlbumSong3() ensures Segment("müsic/album/söng3.mp3") == "müsic/" {
    assert "müsic/album/söng3.mp3" == "müsic" + "/" + "album/söng3.mp3";
    assert '/' !in "müsic";
    SegmentOfDir("müsic", "album/söng3.mp3");
  }
  lemma SegmentSong1() ensures Segment("müsic/söng1.mp3") == "müsic/" {
    assert "müsic/söng1.mp3" == "müsic" + "/" + "söng1.mp3";
    assert '/' !in "müsic";
    SegmentOfDir("müsic", "söng1.mp3");
  }
  lemma SegmentSong2() ensures Segment("müsic/söng2.mp3") == "müsic/" {
    assert "müsic/söng2.mp3" == "müsic" + "/" + "söng2.mp3";
    assert '/' !in "müsic";
    SegmentOfDir("müsic", "söng2.mp3");
  }
  lemma SegmentSong4() ensures Segment("müsic/söng4.mp3") == "müsic/" {
    assert "müsic/söng4.mp3" == "müsic" + "/" + "söng4.mp3";
    assert '/' !in "müsic";
    SegmentOfDir("müsic", "söng4.mp3");
  }
  lemma SegmentMovie() ensures Segment("ビデオ/movie.mkv") == "ビデオ/" {
    assert "ビデオ/movie.mkv" == "ビデオ" + "/" + "movie.mkv";
    assert '/' !in "ビデオ";
    SegmentOfDir("ビデオ", "movie.mkv");
  }
  lemma SegmentAlbum() ensures Segment("album/söng3.mp3") == "album/" {
    assert "album/söng3.mp3" == "album" + "/" + "söng3.mp3";
    assert '/' !in "album";
    SegmentOfDir("album", "söng3.mp3");
  }

  /** The stored entries with no "/" list as themselves at the top level. */
  lemma TopFiles(v: Value, flags: int)
    ensures ItemOf(Entry("müsic", v), false, flags) == Item("müsic", Ptr(v, flags), false)
    ensures ItemOf(Entry("sample.😶", v), false, flags) == Item("sample.😶", Ptr(v, flags), false)
  {
    assert '/' !in "müsic";
    assert '/' !in "sample.😶";
  }

  /** How each stored entry lists at the top level. */
  lemma TopItems(v: Value, flags: int)
    ensures ItemOf(Entry("müsic", v), false, flags) == Item("müsic", Ptr(v, flags), false)
    ensures ItemOf(Entry("müsic/album/söng3.mp3", v), false, flags) == Item("müsic/", None, true)
    ensures ItemOf(Entry("müsic/söng1.mp3", v), false, flags) == Item("müsic/", None, true)
    ensures ItemOf(Entry("müsic/söng2.mp3", v), false, flags) == Item("müsic/", None, true)
    ensures ItemOf(Entry("müsic/söng4.mp3", v), false, flags) == Item("müsic/", None, true)
    ensures ItemOf(Entry("sample.😶", v), false, flags) == Item("sample.😶", Ptr(v, flags), false)
    ensures ItemOf(Entry("ビデオ/movie.mkv", v), false, flags) == Item("ビデオ/", None, true)
  {
    TopFiles(v, flags);
    SegmentAlbumSong3();
    SegmentSong1();
    SegmentSong2();
    SegmentSong4();
    SegmentMovie();
  }

  /** A four-element list built one element at a time. */
  lemma Four<T>(a: T, b: T, c: T, d: T)
    ensures [a] + ([b] + ([c] + [d])) == [a, b, c, d]
  {
  }

  /** One step of Collapse: an item that does not merge with the next one is kept. */
  lemma CollapseKeep(e: Entry, es: seq<Entry>, recursive: bool, flags: int, it: Item, rest: seq<Item>)
    requires ItemOf(e, recursive, flags) == it && Collapse(es, recursive, flags) == rest
    requires !(|rest| > 0 && it.isPrefix && rest[0] == it)
    ensures Collapse([e] + es, recursive, flags) == [it] + rest
  {
    assert ([e] + es)[1..] == es;
  }

  /** One step of Collapse: a sub-directory item equal to the next one merges with it. */
  lemma CollapseMerge(e: Entry, es: seq<Entry>, recursive: bool, flags: int, rest: seq<Item>)
    requires |rest| > 0 && rest[0].isPrefix && ItemOf(e, recursive, flags) == rest[0]
    requires Collapse(es, recursive, flags) == rest
    ensures Collapse([e] + es, recursive, flags) == rest
  {
    assert ([e] + es)[1..] == es;
  }

  /** One step of Between: an entry within the bounds is kept. */
  lemma BetweenKeep(e: Entry, es: seq<Entry>, startAfter: string, endBefore: string, rest: seq<Entry>)
    requires InBounds(e.key, startAfter, endBefore) && Between(es, startAfter, endBefore) == rest
    ensures Between([e] + es, startAfter, endBefore) == [e] + rest
  {
    assert ([e] + es)[1..] == es;
  }

  /** One step of Between: an entry outside the bounds is dropped. */
  lemma BetweenDrop(e: Entry, es: seq<Entry>, startAfter: string, endBefore: string, rest: seq<Entry>)
    requires !InBounds(e.key, startAfter, endBefore) && Between(es, startAfter, endBefore) == rest
    ensures Between([e] + es, startAfter, endBefore) == rest
  {
    assert ([e] + es)[1..] == es;
  }

  /** The store, one entry at a time. */
  lemma StoreCons(v: Value)
    ensures Store(v) == [Entry("müsic", v)] + ([Entry("müsic/album/söng3.mp3", v)] + ([Entry("müsic/söng1.mp3", v)] +
      ([Entry("müsic/söng2.mp3", v)] + ([Entry("müsic/söng4.mp3", v)] + ([Entry("sample.😶", v)] +
      ([Entry("ビデオ/movie.mkv", v)] + []))))))
  {
  }

  /** The entries under "müsic/", one at a time. */
  lemma MusicCons(v: Value)
    ensures Music(v) == [Entry("album/söng3.mp3", v)] + ([Entry("söng1.mp3", v)] + ([Entry("söng2.mp3", v)] +
      ([Entry("söng4.mp3", v)] + [])))
  {
  }

  /** The last three entries of the store list as the müsic/ directory, sample.😶 and the ビデオ/ directory. */
  lemma TopLevelTail(v: Value, flags: int)
    ensures Collapse([Entry("müsic/söng4.mp3", v)] + ([Entry("sample.😶", v)] + ([Entry("ビデオ/movie.mkv", v)] + [])), false, flags) ==
      [Item("müsic/", None, true)] + ([Item("sample.😶", Ptr(v, flags), false)] + [Item("ビデオ/", None, true)])
  {
    TopItems(v, flags);
    var e6 := [Entry("ビデオ/movie.mkv", v)] + [];
    var e5 := [Entry("sample.😶", v)] + e6;
    var video := [Item("ビデオ/", None, true)];
    var sample := [Item("sample.😶", Ptr(v, flags), false)] + video;
    CollapseKeep(Entry("ビデオ/movie.mkv", v), [], false, flags, Item("ビデオ/", None, true), []);
    CollapseKeep(Entry("sample.😶", v), e6, false, flags, Item("sample.😶", Ptr(v, flags), false), video);
    CollapseKeep(Entry("müsic/söng4.mp3", v), e5, false, flags, Item("müsic/", None, true), sample);
  }

  /** The four entries below müsic/ merge into one müsic/ directory item. */
  lemma TopLevelMusic(v: Value, flags: int)
    ensures Collapse([Entry("müsic/album/söng3.mp3", v)] + ([Entry("müsic/söng1.mp3", v)] + ([Entry("müsic/söng2.mp3", v)] +
      ([Entry("müsic/söng4.mp3", v)] + ([Entry("sample.😶", v)] + ([Entry("ビデオ/movie.mkv", v)] + []))))), false, flags) ==
      [Item("müsic/", None, true)] + ([Item("sample.😶", Ptr(v, flags), false)] + [Item("ビデオ/", None, true)])
  {
    TopItems(v, flags);
    TopLevelTail(v, flags);
    var e4 := [Entry("müsic/söng4.mp3", v)] + ([Entry("sample.😶", v)] + ([Entry("ビデオ/movie.mkv", v)] + []));
    var e3 := [Entry("müsic/söng2.mp3", v)] + e4;
    var e2 := [Entry("müsic/söng1.mp3", v)] + e3;
    var music := [Item("müsic/", None, true)] + ([Item("sample.😶", Ptr(v, flags), false)] + [Item("ビデオ/", None, true)]);
    CollapseMerge(Entry("müsic/söng2.mp3", v), e4, false, flags, music);
    CollapseMerge(Entry("müsic/söng1.mp3", v), e3, false, flags, music);
    CollapseMerge(Entry("müsic/album/söng3.mp3", v), e2, false, flags, music);
  }

  /** The store lists at the top level as müsic, the müsic/ directory, sample.😶 and the ビデオ/ directory. */
  lemma TopLevel(v: Value, flags: int)
    ensures Collapse(Store(v), false, flags) ==
      [Item("müsic", Ptr(v, flags), false), Item("müsic/", None, true),
       Item("sample.😶", Ptr(v, flags), false), Item("ビデオ/", None, true)]
  {
    var e1 := [Entry("müsic/album/söng3.mp3", v)] + ([Entry("müsic/söng1.mp3", v)] + ([Entry("müsic/söng2.mp3", v)] +
      ([Entry("müsic/söng4.mp3", v)] + ([Entry("sample.😶", v)] + ([Entry("ビデオ/movie.mkv", v)] + [])))));
    var music := [Item("müsic/", None, true)] + ([Item("sample.😶", Ptr(v, flags), false)] + [Item("ビデオ/", None, true)]);
    var it := Item("müsic", Ptr(v, flags), false);
    assert Collapse([Entry("müsic", v)] + e1, false, flags) == [it] + music by {
      TopItems(v, flags);
      TopLevelMusic(v, flags);
      CollapseKeep(Entry("müsic", v), e1, false, flags, it, music);
    }
    StoreCons(v);
    Four(it, Item("müsic/", None, true), Item("sample.😶", Ptr(v, flags), false), Item("ビデオ/", None, true));
  }

  /** Listing the top level with metadata gives files with pointers and directories without. */
  lemma ListTopLevelFixture(v: Value, flags: int)
    requires flags != META_NONE
    ensures List(Store(v), Req("", "", "", false, 0, flags), []) ==
      Ok(ListResponse([Item("müsic", Some(v), false), Item("müsic/", None, true),
                       Item("sample.😶", Some(v), false), Item("ビデオ/", None, true)], false))
  {
    WholeStore(Store(v), false, 0, flags);
    TopLevel(v, flags);
  }

  /** Every key but the ビデオ/ one lies before "ビデオ". */
  lemma BeforeVideo()
    ensures InBounds("müsic", "", "ビデオ")
    ensures InBounds("müsic/album/söng3.mp3", "", "ビデオ")
    ensures InBounds("müsic/söng1.mp3", "", "ビデオ")
    ensures InBounds("müsic/söng2.mp3", "", "ビデオ")
    ensures InBounds("müsic/söng4.mp3", "", "ビデオ")
    ensures InBounds("sample.😶", "", "ビデオ")
    ensures !InBounds("ビデオ/movie.mkv", "", "ビデオ")
  {
  }

  /** Ending before "ビデオ" keeps the first six entries. */
  lemma StoreBeforeVideo(v: Value)
    ensures Between(Store(v), "", "ビデオ") == [Entry("müsic", v)] + ([Entry("müsic/album/söng3.mp3", v)] +
      ([Entry("müsic/söng1.mp3", v)] + ([Entry("müsic/söng2.mp3", v)] + ([Entry("müsic/söng4.mp3", v)] +
      ([Entry("sample.😶", v)] + [])))))
  {
    BeforeVideo();
    StoreCons(v);
    var e6 := [Entry("ビデオ/movie.mkv", v)] + [];
    var e5 := [Entry("sample.😶", v)] + e6;
    var e4 := [Entry("müsic/söng4.mp3", v)] + e5;
    var e3 := [Entry("müsic/söng2.mp3", v)] + e4;
    var e2 := [Entry("müsic/söng1.mp3", v)] + e3;
    var e1 := [Entry("müsic/album/söng3.mp3", v)] + e2;
    var t5 := [Entry("sample.😶", v)] + [];
    var t4 := [Entry("müsic/söng4.mp3", v)] + t5;
    var t3 := [Entry("müsic/söng2.mp3", v)] + t4;
    var t2 := [Entry("müsic/söng1.mp3", v)] + t3;
    var t1 := [Entry("müsic/album/söng3.mp3", v)] + t2;
    BetweenDrop(Entry("ビデオ/movie.mkv", v), [], "", "ビデオ", []);
    BetweenKeep(Entry("sample.😶", v), e6, "", "ビデオ", []);
    BetweenKeep(Entry("müsic/söng4.mp3", v), e5, "", "ビデオ", t5);
    BetweenKeep(Entry("müsic/söng2.mp3", v), e4, "", "ビデオ", t4);
    BetweenKeep(Entry("müsic/söng1.mp3", v), e3, "", "ビデオ", t3);
    BetweenKeep(Entry("müsic/album/söng3.mp3", v), e2, "", "ビデオ", t2);
    BetweenKeep(Entry("müsic", v), e1, "", "ビデオ", t1);
  }

  /** Without the ビデオ/ entry, the store lists as müsic, the müsic/ directory and sample.😶. */
  lemma TopLevelBeforeVideo(v: Value)
    ensures Collapse([Entry("müsic", v)] + ([Entry("müsic/album/söng3.mp3", v)] +
      ([Entry("müsic/söng1.mp3", v)] + ([Entry("müsic/söng2.mp3", v)] + ([Entry("müsic/söng4.mp3", v)] +
      ([Entry("sample.😶", v)] + []))))), false, META_NONE) ==
      [Item("müsic", None, false), Item("müsic/", None, true), Item("sample.😶", None, false)]
  {
    TopItems(v, META_NONE);
    var t5 := [Entry("sample.😶", v)] + [];
    var t4 := [Entry("müsic/söng4.mp3", v)] + t5;
    var t3 := [Entry("müsic/söng2.mp3", v)] + t4;
    var t2 := [Entry("müsic/söng1.mp3", v)] + t3;
    var t1 := [Entry("müsic/album/söng3.mp3", v)] + t2;
    var sample := [Item("sample.😶", None, false)];
    var music := [Item("müsic/", None, true)] + sample;
    CollapseKeep(Entry("sample.😶", v), [], false, META_NONE, Item("sample.😶", None, false), []);
    CollapseKeep(Entry("müsic/söng4.mp3", v), t5, false, META_NONE, Item("müsic/", None, true), sample);
    CollapseMerge(Entry("müsic/söng2.mp3", v), t4, false, META_NONE, music);
    CollapseMerge(Entry("müsic/söng1.mp3", v), t3, false, META_NONE, music);
    CollapseMerge(Entry("müsic/album/söng3.mp3", v), t2, false, META_NONE, music);
    CollapseKeep(Entry("müsic", v), t1, false, META_NONE, Item("müsic", None, false), music);
  }

  /** Ending before "ビデオ" drops the ビデオ/ directory. */
  lemma ListEndBeforeFixture(v: Value)
    ensures List(Store(v), Req("", "", "ビデオ", false, 0, META_NONE), []) ==
      Ok(ListResponse([Item("müsic", None, false), Item("müsic/", None, true), Item("sample.😶", None, false)], false))
  {
    UnderNoPrefix(Store(v));
    StoreBeforeVideo(v);
    TopLevelBeforeVideo(v);
  }

  /** A recursive listing under "müsic/" names the four paths below it, relative to it. */
  lemma ListMusicRecursiveFixture(v: Value)
    ensures List(Store(v), Req("müsic/", "", "", true, 0, META_NONE), []) ==
      Ok(ListResponse([Item("album/söng3.mp3", None, false), Item("söng1.mp3", None, false),
                       Item("söng2.mp3", None, false), Item("söng4.mp3", None, false)], false))
  {
    var m := Music(v);
    UnderMusic(v);
    BetweenUnbounded(m);
    CollapseRecursive(m, META_NONE);
    var items := Collapse(m, true, META_NONE);
    assert items == [ItemOf(m[0], true, META_NONE), ItemOf(m[1], true, META_NONE),
                     ItemOf(m[2], true, META_NONE), ItemOf(m[3], true, META_NONE)];
  }

  /** Only album/söng3.mp3 is not after itself. */
  lemma BoundsAfterAlbum()
    ensures !InBounds("album/söng3.mp3", "album/söng3.mp3", "")
    ensures InBounds("söng1.mp3", "album/söng3.mp3", "")
    ensures InBounds("söng2.mp3", "album/söng3.mp3", "")
    ensures InBounds("söng4.mp3", "album/söng3.mp3", "")
  {
    BelowIrreflexive("album/söng3.mp3");
  }

  /** Only söng2.mp3 and söng4.mp3 come after söng1.mp3. */
  lemma BoundsAfterSong1()
    ensures !InBounds("album/söng3.mp3", "söng1.mp3", "")
    ensures !InBounds("söng1.mp3", "söng1.mp3", "")
    ensures InBounds("söng2.mp3", "söng1.mp3", "")
    ensures InBounds("söng4.mp3", "söng1.mp3", "")
  {
    BelowIrreflexive("söng1.mp3");
  }

  /** All but söng4.mp3 come before söng4.mp3. */
  lemma BoundsBeforeSong4()
    ensures InBounds("album/söng3.mp3", "", "söng4.mp3")
    ensures InBounds("söng1.mp3", "", "söng4.mp3")
    ensures InBounds("söng2.mp3", "", "söng4.mp3")
    ensures !InBounds("söng4.mp3", "", "söng4.mp3")
  {
    BelowIrreflexive("söng4.mp3");
  }

  /** The entries under "müsic/" after album/söng3.mp3. */
  function Songs(v: Value): seq<Entry> {
    [Entry("söng1.mp3", v)] + ([Entry("söng2.mp3", v)] + ([Entry("söng4.mp3", v)] + []))
  }

  /** Starting after "album/söng3.mp3" keeps the three songs. */
  lemma MusicAfterAlbum(v: Value)
    ensures Between(Music(v), "album/söng3.mp3", "") == Songs(v)
  {
    MusicCons(v);
    BoundsAfterAlbum();
    var t3 := [Entry("söng4.mp3", v)] + [];
    var t2 := [Entry("söng2.mp3", v)] + t3;
    BetweenKeep(Entry("söng4.mp3", v), [], "album/söng3.mp3", "", []);
    BetweenKeep(Entry("söng2.mp3", v), t3, "album/söng3.mp3", "", t3);
    BetweenKeep(Entry("söng1.mp3", v), t2, "album/söng3.mp3", "", t2);
    BetweenDrop(Entry("album/söng3.mp3", v), Songs(v), "album/söng3.mp3", "", Songs(v));
  }

  /** Starting after "album/söng3.mp3" leaves the three songs directly under "müsic/". */
  lemma ListMusicStartAfterFixture(v: Value)
    ensures List(Store(v), Req("müsic/", "album/söng3.mp3", "", true, 0, META_NONE), []) ==
      Ok(ListResponse([Item("söng1.mp3", None, false), Item("söng2.mp3", None, false),
                       Item("söng4.mp3", None, false)], false))
  {
    UnderMusic(v);
    MusicAfterAlbum(v);
    SongsRecursive(v);
  }

  /** Listed recursively, the three songs are three files. */
  lemma SongsRecursive(v: Value)
    ensures Collapse(Songs(v), true, META_NONE) ==
      [Item("söng1.mp3", None, false), Item("söng2.mp3", None, false), Item("söng4.mp3", None, false)]
  {
    var t := Songs(v);
    CollapseRecursive(t, META_NONE);
    assert Collapse(t, true, META_NONE) == [ItemOf(t[0], true, META_NONE), ItemOf(t[1], true, META_NONE), ItemOf(t[2], true, META_NONE)];
  }

  /** The three songs directly under "müsic/" list as themselves. */
  lemma SongItems(v: Value)
    ensures ItemOf(Entry("söng1.mp3", v), false, META_NONE) == Item("söng1.mp3", None, false)
    ensures ItemOf(Entry("söng2.mp3", v), false, META_NONE) == Item("söng2.mp3", None, false)
    ensures ItemOf(Entry("söng4.mp3", v), false, META_NONE) == Item("söng4.mp3", None, false)
    ensures ItemOf(Entry("album/söng3.mp3", v), false, META_NONE) == Item("album/", None, true)
  {
    assert '/' !in "söng1.mp3";
    assert '/' !in "söng2.mp3";
    assert '/' !in "söng4.mp3";
    SegmentAlbum();
  }

  /** The three songs list as three files. */
  lemma SongsLevel(v: Value)
    ensures Collapse(Songs(v), false, META_NONE) ==
      [Item("söng1.mp3", None, false)] + ([Item("söng2.mp3", None, false)] + [Item("söng4.mp3", None, false)])
  {
    SongItems(v);
    var t3 := [Entry("söng4.mp3", v)] + [];
    var t2 := [Entry("söng2.mp3", v)] + t3;
    var i3 := [Item("söng4.mp3", None, false)];
    var i2 := [Item("söng2.mp3", None, false)] + i3;
    CollapseKeep(Entry("söng4.mp3", v), [], false, META_NONE, Item("söng4.mp3", None, false), []);
    CollapseKeep(Entry("söng2.mp3", v), t3, false, META_NONE, Item("söng2.mp3", None, false), i3);
    CollapseKeep(Entry("söng1.mp3", v), t2, false, META_NONE, Item("söng1.mp3", None, false), i2);
  }

  /** The entries under "müsic/" list as the album/ directory and the three songs. */
  lemma MusicLevel(v: Value)
    ensures Collapse(Music(v), false, META_NONE) ==
      [Item("album/", None, true), Item("söng1.mp3", None, false),
       Item("söng2.mp3", None, false), Item("söng4.mp3", None, false)]
  {
    var i1 := [Item("söng1.mp3", None, false)] + ([Item("söng2.mp3", None, false)] + [Item("söng4.mp3", None, false)]);
    assert Collapse([Entry("album/söng3.mp3", v)] + Songs(v), false, META_NONE) == [Item("album/", None, true)] + i1 by {
      SongItems(v);
      SongsLevel(v);
      CollapseKeep(Entry("album/söng3.mp3", v), Songs(v), false, META_NONE, Item("album/", None, true), i1);
    }
    assert Music(v) == [Entry("album/söng3.mp3", v)] + Songs(v) by {
      MusicCons(v);
    }
    Four(Item("album/", None, true), Item("söng1.mp3", None, false),
         Item("söng2.mp3", None, false), Item("söng4.mp3", None, false));
  }

  /** Listing "müsic/" shows the album/ directory and the three songs. */
  lemma ListMusicFixture(v: Value)
    ensures List(Store(v), Req("müsic/", "", "", false, 0, META_NONE), []) ==
      Ok(ListResponse([Item("album/", None, true), Item("söng1.mp3", None, false),
                       Item("söng2.mp3", None, false), Item("söng4.mp3", None, false)], false))
  {
    assert WholeSegments("müsic/") == "müsic/";
    UnderMusic(v);
    BetweenUnbounded(Music(v));
    MusicLevel(v);
  }

  /** Starting after "söng1.mp3" keeps söng2.mp3 and söng4.mp3. */
  lemma MusicAfterSong1(v: Value)
    ensures Between(Music(v), "söng1.mp3", "") == [Entry("söng2.mp3", v)] + ([Entry("söng4.mp3", v)] + [])
  {
    MusicCons(v);
    BoundsAfterSong1();
    var t3 := [Entry("söng4.mp3", v)] + [];
    var t2 := [Entry("söng2.mp3", v)] + t3;
    BetweenKeep(Entry("söng4.mp3", v), [], "söng1.mp3", "", []);
    BetweenKeep(Entry("söng2.mp3", v), t3, "söng1.mp3", "", t3);
    BetweenDrop(Entry("söng1.mp3", v), t2, "söng1.mp3", "", t2);
    BetweenDrop(Entry("album/söng3.mp3", v), Songs(v), "söng1.mp3", "", t2);
  }

  /** Starting after "söng1.mp3" leaves söng2.mp3 and söng4.mp3. */
  lemma ListMusicAfterSong1Fixture(v: Value)
    ensures List(Store(v), Req("müsic/", "söng1.mp3", "", false, 0, META_NONE), []) ==
      Ok(ListResponse([Item("söng2.mp3", None, false), Item("söng4.mp3", None, false)], false))
  {
    assert WholeSegments("müsic/") == "müsic/";
    UnderMusic(v);
    MusicAfterSong1(v);
    SongsTwoAndFour(v);
  }

  /** söng2.mp3 and söng4.mp3 list as themselves. */
  lemma SongsTwoAndFour(v: Value)
    ensures Collapse([Entry("söng2.mp3", v)] + ([Entry("söng4.mp3", v)] + []), false, META_NONE) ==
      [Item("söng2.mp3", None, false), Item("söng4.mp3", None, false)]
  {
    SongItems(v);
    var t3 := [Entry("söng4.mp3", v)] + [];
    var i3 := [Item("söng4.mp3", None, false)];
    CollapseKeep(Entry("söng4.mp3", v), [], false, META_NONE, Item("söng4.mp3", None, false), []);
    CollapseKeep(Entry("söng2.mp3", v), t3, false, META_NONE, Item("söng2.mp3", None, false), i3);
  }

  /** Ending before "söng4.mp3" keeps album/söng3.mp3, söng1.mp3 and söng2.mp3. */
  lemma MusicBeforeSong4(v: Value)
    ensures Between(Music(v), "", "söng4.mp3") ==
      [Entry("album/söng3.mp3", v)] + ([Entry("söng1.mp3", v)] + ([Entry("söng2.mp3", v)] + []))
  {
    MusicCons(v);
    BoundsBeforeSong4();
    var t3 := [Entry("söng4.mp3", v)] + [];
    var t2 := [Entry("söng2.mp3", v)] + t3;
    var u2 := [Entry("söng2.mp3", v)] + [];
    var u1 := [Entry("söng1.mp3", v)] + u2;
    BetweenDrop(Entry("söng4.mp3", v), [], "", "söng4.mp3", []);
    BetweenKeep(Entry("söng2.mp3", v), t3, "", "söng4.mp3", []);
    BetweenKeep(Entry("söng1.mp3", v), t2, "", "söng4.mp3", u2);
    BetweenKeep(Entry("album/söng3.mp3", v), Songs(v), "", "söng4.mp3", u1);
  }

  /** Ending before "söng4.mp3" leaves the album/ directory, söng1.mp3 and söng2.mp3. */
  lemma ListMusicBeforeSong4Fixture(v: Value)
    ensures List(Store(v), Req("müsic/", "", "söng4.mp3", false, 0, META_NONE), []) ==
      Ok(ListResponse([Item("album/", None, true), Item("söng1.mp3", None, false),
                       Item("söng2.mp3", None, false)], false))
  {
    assert WholeSegments("müsic/") == "müsic/";
    UnderMusic(v);
    MusicBeforeSong4(v);
    AlbumAndSongsOneTwo(v);
  }

  /** album/söng3.mp3, söng1.mp3 and söng2.mp3 list as the album/ directory and two songs. */
  lemma AlbumAndSongsOneTwo(v: Value)
    ensures Collapse([Entry("album/söng3.mp3", v)] + ([Entry("söng1.mp3", v)] + ([Entry("söng2.mp3", v)] + [])),
                     false, META_NONE) ==
      [Item("album/", None, true), Item("söng1.mp3", None, false), Item("söng2.mp3", None, false)]
  {
    SongItems(v);
    var u2 := [Entry("söng2.mp3", v)] + [];
    var u1 := [Entry("söng1.mp3", v)] + u2;
    var i2 := [Item("söng2.mp3", None, false)];
    var i1 := [Item("söng1.mp3", None, false)] + i2;
    CollapseKeep(Entry("söng2.mp3", v), [], false, META_NONE, Item("söng2.mp3", None, false), []);
    CollapseKeep(Entry("söng1.mp3", v), u2, false, META_NONE, Item("söng1.mp3", None, false), i2);
    CollapseKeep(Entry("album/söng3.mp3", v), u1, false, META_NONE, Item("album/", None, true), i1);
  }

  /**
   * The prefix "müs" names the whole segment "müs/", under which nothing is
   * stored: the listing is empty and nothing more remains.
   */
  lemma ListPartialSegmentFixture(v: Value)
    ensures List(Store(v), Req("müs", "", "ic/söng4.mp3", true, 1, META_NONE), []) == Ok(ListResponse([], false))
  {
    assert WholeSegments("müs") == "müs/";
    UnderPartialSegment(v);
  }

  /** No stored key starts with "müs/". */
  lemma UnderPartialSegment(v: Value)
    ensures Under(Store(v), "müs/") == []
  {
    var s := Store(v);
    Diverge("müs/", "müsic", 3);
    Diverge("müs/", "müsic/album/söng3.mp3", 3);
    Diverge("müs/", "müsic/söng1.mp3", 3);
    Diverge("müs/", "müsic/söng2.mp3", 3);
    Diverge("müs/", "müsic/söng4.mp3", 3);
    Diverge("müs/", "sample.😶", 0);
    Diverge("müs/", "ビデオ/movie.mkv", 0);
    assert Under(s[7..], "müs/") == [];
    assert Under(s[6..], "müs/") == [];
    assert Under(s[5..], "müs/") == [];
    assert Under(s[4..], "müs/") == [];
    assert Under(s[3..], "müs/") == [];
    assert Under(s[2..], "müs/") == [];
    assert Under(s[1..], "müs/") == [];
  }
}
