/** The stored form of the wishlist, standing in for `JSON.stringify` and
    `JSON.parse` of the entry array (assets/wishlist.js:17, :26). Every string
    field is escaped (`\` and `;` get a `\` in front) and ended by `;`; an
    entry is its id, its time and a metadata part (`-` for none, `+` and the
    four fields otherwise); the list is wrapped in `[` `]`. Parsing is
    partial: malformed text gives `None`, as `JSON.parse` throws. */
module WishlistCodec {
  import opened Optional
  import opened WishlistModel

  function Escape(s: string): string {
    if s == [] then []
    else (if s[0] == ';' || s[0] == '\\' then ['\\', s[0]] else [s[0]]) + Escape(s[1..])
  }

  function EncodeField(s: string): string {
    Escape(s) + [';']
  }

  function EncodeMeta(m: Metadata): string {
    match m
    case NoMetadata => "-"
    case Product(title, price, image, url) =>
      "+" + EncodeField(title) + EncodeField(price) + EncodeField(image) + EncodeField(url)
  }

  function EncodeEntry(e: Entry): string {
    EncodeField(e.id) + EncodeField(e.addedAt) + EncodeMeta(e.meta)
  }

  function EncodeEntries(list: seq<Entry>): string {
    if list == [] then [] else EncodeEntry(list[0]) + EncodeEntries(list[1..])
  }

  /** `JSON.stringify(list)` */
  function Encode(list: seq<Entry>): (s: string)
    ensures s != "" && s[0] == '['
  {
    "[" + EncodeEntries(list) + "]"
  }

  /** Reads one field; the rest of the input is strictly shorter. */
  function DecodeField(s: string): (r: Option<(string, string)>)
    ensures r.Some? ==> |r.value.1| < |s|
  {
    if s == [] then None
    else if s[0] == ';' then Some(([], s[1..]))
    else if s[0] == '\\' then
      if |s| < 2 then None
      else
        var f :- DecodeField(s[2..]);
        Some(([s[1]] + f.0, f.1))
    else
      var f :- DecodeField(s[1..]);
      Some(([s[0]] + f.0, f.1))
  }

  function DecodeMeta(s: string): (r: Option<(Metadata, string)>)
    ensures r.Some? ==> |r.value.1| < |s|
  {
    if s == [] then None
    else if s[0] == '-' then Some((NoMetadata, s[1..]))
    else if s[0] == '+' then
      var title :- DecodeField(s[1..]);
      var price :- DecodeField(title.1);
      var image :- DecodeField(price.1);
      var url :- DecodeField(image.1);
      Some((Product(title.0, price.0, image.0, url.0), url.1))
    else None
  }

  function DecodeEntry(s: string): (r: Option<(Entry, string)>)
    ensures r.Some? ==> |r.value.1| < |s|
  {
    var id :- DecodeField(s);
    var addedAt :- DecodeField(id.1);
    var meta :- DecodeMeta(addedAt.1);
    Some((Entry(id.0, addedAt.0, meta.0), meta.1))
  }

  /** Entries up to the closing `]`, which must end the input. */
  function DecodeEntries(s: string): Option<seq<Entry>>
    decreases |s|
  {
    if s == "]" then Some([])
    else
      var e :- DecodeEntry(s);
      var rest :- DecodeEntries(e.1);
      Some([e.0] + rest)
  }

  /** `JSON.parse(s)`, `None` where it would throw. */
  function Decode(s: string): Option<seq<Entry>> {
    if |s| > 0 && s[0] == '[' then DecodeEntries(s[1..]) else None
  }

  lemma {:induction false} FieldRoundTrip(x: string, tail: string)
    ensures DecodeField(EncodeField(x) + tail) == Some((x, tail))
  {
    var s := EncodeField(x) + tail;
    if x != [] {
      FieldRoundTrip(x[1..], tail);
      var inner := EncodeField(x[1..]) + tail;
      if x[0] == ';' || x[0] == '\\' {
        assert s == ['\\', x[0]] + inner;
        assert s[2..] == inner;
      } else {
        assert s == [x[0]] + inner;
        assert s[1..] == inner;
      }
      assert [x[0]] + x[1..] == x;
    }
  }

  lemma MetaRoundTrip(m: Metadata, tail: string)
    ensures DecodeMeta(EncodeMeta(m) + tail) == Some((m, tail))
  {
    match m
    case NoMetadata =>
      assert (EncodeMeta(m) + tail)[1..] == tail;
    case Product(title, price, image, url) =>
      var e1, e2, e3, e4 := EncodeField(title), EncodeField(price), EncodeField(image), EncodeField(url);
      var body := e1 + (e2 + (e3 + (e4 + tail)));
      calc {
        EncodeMeta(m) + tail;
        ("+" + e1 + e2 + e3 + e4) + tail;
        ("+" + e1 + e2 + e3) + (e4 + tail);
        ("+" + e1 + e2) + (e3 + (e4 + tail));
        ("+" + e1) + (e2 + (e3 + (e4 + tail)));
        "+" + body;
      }
      ProductRoundTrip(body, title, price, image, url, tail);
      DecodeProduct(body, m, tail);
  }

  lemma DecodeProduct(body: string, m: Metadata, tail: string)
    requires m.Product?
    requires DecodeField(body) == Some((m.title, EncodeField(m.price) + (EncodeField(m.image) + (EncodeField(m.url) + tail))))
    requires DecodeField(EncodeField(m.price) + (EncodeField(m.image) + (EncodeField(m.url) + tail)))
          == Some((m.price, EncodeField(m.image) + (EncodeField(m.url) + tail)))
    requires DecodeField(EncodeField(m.image) + (EncodeField(m.url) + tail)) == Some((m.image, EncodeField(m.url) + tail))
    requires DecodeField(EncodeField(m.url) + tail) == Some((m.url, tail))
    ensures DecodeMeta("+" + body) == Some((m, tail))
  {
    assert ("+" + body)[1..] == body;
  }

  lemma ProductRoundTrip(s: string, title: string, price: string, image: string, url: string, tail: string)
    requires s == EncodeField(title) + (EncodeField(price) + (EncodeField(image) + (EncodeField(url) + tail)))
    ensures DecodeField(s) == Some((title, EncodeField(price) + (EncodeField(image) + (EncodeField(url) + tail))))
    ensures DecodeField(EncodeField(price) + (EncodeField(image) + (EncodeField(url) + tail)))
         == Some((price, EncodeField(image) + (EncodeField(url) + tail)))
    ensures DecodeField(EncodeField(image) + (EncodeField(url) + tail)) == Some((image, EncodeField(url) + tail))
    ensures DecodeField(EncodeField(url) + tail) == Some((url, tail))
  {
    FieldRoundTrip(title, EncodeField(price) + (EncodeField(image) + (EncodeField(url) + tail)));
    FieldRoundTrip(price, EncodeField(image) + (EncodeField(url) + tail));
    FieldRoundTrip(image, EncodeField(url) + tail);
    FieldRoundTrip(url, tail);
  }

  lemma EntryRoundTrip(e: Entry, tail: string)
    ensures DecodeEntry(EncodeEntry(e) + tail) == Some((e, tail))
  {
    var t2 := EncodeMeta(e.meta) + tail;
    var t1 := EncodeField(e.addedAt) + t2;
    assert EncodeEntry(e) + tail == EncodeField(e.id) + t1;
    FieldRoundTrip(e.id, t1);
    FieldRoundTrip(e.addedAt, t2);
    MetaRoundTrip(e.meta, tail);
  }

  lemma {:induction false} EntriesRoundTrip(list: seq<Entry>)
    ensures DecodeEntries(EncodeEntries(list) + "]") == Some(list)
  {
    if list == [] {
      assert EncodeEntries(list) + "]" == "]";
    } else {
      var tail := EncodeEntries(list[1..]) + "]";
      assert EncodeEntries(list) + "]" == EncodeEntry(list[0]) + tail;
      EntryRoundTrip(list[0], tail);
      assert |EncodeEntries(list) + "]"| > |tail|;
      EntriesRoundTrip(list[1..]);
      assert [list[0]] + list[1..] == list;
    }
  }

  /** Parsing what was stored gives the same list back. */
  lemma DecodeEncode(list: seq<Entry>)
    ensures Decode(Encode(list)) == Some(list)
  {
    assert Encode(list)[1..] == EncodeEntries(list) + "]";
    EntriesRoundTrip(list);
  }

  /** Text that does not start like a stored list does not parse. */
  lemma DecodeRejectsNonList(s: string)
    requires s == [] || s[0] != '['
    ensures Decode(s) == None
  {
  }
}
