/** The field mapper: `convert_frontmatter`. It starts from an empty dict
    and inserts, in this order and each only when its source key is present:
    `title` (the `str()` of `title`), `description` (the `str()` of
    `summary`), `publishDate` (the date conversion of `date`), `tags`
    (unchanged) and `draft` (unchanged, and only when truthy). Every other
    key of the old header is dropped. Inserting distinct keys into an empty
    dict appends, so the new header is built as a sequence. */
module Mapper {
  import opened Values
  import opened DateFormat

  /** The keys of the new schema, in the order the mapper inserts them. */
  const NewKeys: seq<string> := ["title", "description", "publishDate", "tags", "draft"]

  /** The position of a new-schema key in the insertion order; 5 for any
      other key. */
  function Rank(k: string): (r: nat)
    ensures r <= |NewKeys|
  {
    if k == "title" then 0
    else if k == "description" then 1
    else if k == "publishDate" then 2
    else if k == "tags" then 3
    else if k == "draft" then 4
    else 5
  }

  /** Ranks name keys: two keys of the new schema with the same rank are the same key. */
  lemma RankNames(k: string)
    ensures Rank(k) < |NewKeys| <==> k in NewKeys
    ensures Rank(k) < |NewKeys| ==> NewKeys[Rank(k)] == k
  {
  }

  /** Only new-schema keys. */
  predicate InSchema(h: Header)
  {
    forall i :: 0 <= i < |h| ==> Rank(h[i].0) < |NewKeys|
  }

  /** Keys strictly in insertion order, hence each at most once. */
  predicate Ordered(h: Header)
  {
    forall i, j :: 0 <= i < j < |h| ==> Rank(h[i].0) < Rank(h[j].0)
  }

  /** All keys of `h` come before `k` in the insertion order. */
  predicate Before(h: Header, k: string)
  {
    forall i :: 0 <= i < |h| ==> Rank(h[i].0) < Rank(k)
  }

  /** One conditional insert: the item when its source value is there. */
  function Entry(k: string, v: Option<Value>): (r: Header)
  {
    if v.Some? then [(k, v.value)] else []
  }

  /** Inserting a later new-schema key keeps the header ordered and in schema. */
  lemma InsertKeepsOrder(acc: Header, k: string, v: Option<Value>, next: string)
    requires Ordered(acc) && InSchema(acc) && Before(acc, k) && Rank(k) < |NewKeys|
    requires Rank(k) < Rank(next)
    ensures Ordered(acc + Entry(k, v)) && InSchema(acc + Entry(k, v)) && Before(acc + Entry(k, v), next)
  {
  }

  function StrOf(v: Option<Value>): Option<Value>
  {
    if v.Some? then Some(Str(Stringify(v.value))) else None
  }

  function DateOf(v: Option<Value>): Option<Value>
  {
    if v.Some? then Some(ConvertDate(v.value)) else None
  }

  function DraftOf(v: Option<Value>): Option<Value>
  {
    if v.Some? && Truthy(v.value) then v else None
  }

  /** `convert_frontmatter`. Its items carry new-schema keys only, in the
      insertion order, each at most once. */
  function ConvertFrontmatter(front: Header): (r: Header)
    ensures InSchema(r) && Ordered(r)
  {
    var h0: Header := [];
    var v1 := StrOf(Lookup(front, "title"));
    InsertKeepsOrder(h0, "title", v1, "description");
    var h1 := h0 + Entry("title", v1);
    var v2 := StrOf(Lookup(front, "summary"));
    InsertKeepsOrder(h1, "description", v2, "publishDate");
    var h2 := h1 + Entry("description", v2);
    var v3 := DateOf(Lookup(front, "date"));
    InsertKeepsOrder(h2, "publishDate", v3, "tags");
    var h3 := h2 + Entry("publishDate", v3);
    var v4 := Lookup(front, "tags");
    InsertKeepsOrder(h3, "tags", v4, "draft");
    var h4 := h3 + Entry("tags", v4);
    var v5 := DraftOf(Lookup(front, "draft"));
    InsertKeepsOrder(h4, "draft", v5, "");
    h4 + Entry("draft", v5)
  }

  /** What the new header holds under `key`, key by key: `title` and
      `description` are the `str()` of `title` and `summary`, `publishDate`
      the converted `date`, `tags` the old `tags` unchanged, `draft` the old
      `draft` exactly when it is truthy, and nothing under any other key. */
  function Expected(front: Header, key: string): Option<Value>
  {
    if key == "title" then StrOf(Lookup(front, "title"))
    else if key == "description" then StrOf(Lookup(front, "summary"))
    else if key == "publishDate" then DateOf(Lookup(front, "date"))
    else if key == "tags" then Lookup(front, "tags")
    else if key == "draft" then DraftOf(Lookup(front, "draft"))
    else None
  }

  lemma LookupEntry(k: string, v: Option<Value>, key: string)
    ensures Lookup(Entry(k, v), key) == if key == k then v else None
  {
  }

  /** The mapper's output agrees with `Expected` on every key. */
  lemma MapperLookup(front: Header, key: string)
    ensures Lookup(ConvertFrontmatter(front), key) == Expected(front, key)
  {
    var v1 := StrOf(Lookup(front, "title"));
    var v2 := StrOf(Lookup(front, "summary"));
    var v3 := DateOf(Lookup(front, "date"));
    var v4 := Lookup(front, "tags");
    var v5 := DraftOf(Lookup(front, "draft"));
    var h1 := [] + Entry("title", v1);
    var h2 := h1 + Entry("description", v2);
    var h3 := h2 + Entry("publishDate", v3);
    var h4 := h3 + Entry("tags", v4);
    assert ConvertFrontmatter(front) == h4 + Entry("draft", v5);
    LookupAppend(h4, Entry("draft", v5), key);
    LookupAppend(h3, Entry("tags", v4), key);
    LookupAppend(h2, Entry("publishDate", v3), key);
    LookupAppend(h1, Entry("description", v2), key);
    assert h1 == Entry("title", v1);
    LookupEntry("title", v1, key);
    LookupEntry("description", v2, key);
    LookupEntry("publishDate", v3, key);
    LookupEntry("tags", v4, key);
    LookupEntry("draft", v5, key);
  }

  /** The key rules: a new key is present exactly when its source key is
      (`draft` also needs a truthy value); no other key is ever present. */
  lemma MapperKeys(front: Header)
    ensures HasKey(ConvertFrontmatter(front), "title") <==> HasKey(front, "title")
    ensures HasKey(ConvertFrontmatter(front), "description") <==> HasKey(front, "summary")
    ensures HasKey(ConvertFrontmatter(front), "publishDate") <==> HasKey(front, "date")
    ensures HasKey(ConvertFrontmatter(front), "tags") <==> HasKey(front, "tags")
    ensures HasKey(ConvertFrontmatter(front), "draft") <==>
            HasKey(front, "draft") && Truthy(Lookup(front, "draft").value)
    ensures forall k :: Rank(k) == |NewKeys| ==> !HasKey(ConvertFrontmatter(front), k)
  {
    MapperLookup(front, "title");
    MapperLookup(front, "description");
    MapperLookup(front, "publishDate");
    MapperLookup(front, "tags");
    MapperLookup(front, "draft");
  }

  /** The layout field of the old schema, and the renamed `summary` and
      `date`, are not in the new header. */
  lemma DroppedKeys(front: Header)
    ensures !HasKey(ConvertFrontmatter(front), "layout")
    ensures !HasKey(ConvertFrontmatter(front), "summary")
    ensures !HasKey(ConvertFrontmatter(front), "date")
  {
    var r := ConvertFrontmatter(front);
    assert Rank("layout") == 5 && Rank("summary") == 5 && Rank("date") == 5;
  }

  /** A header holding all five source keys (with a truthy `draft`) maps to
      exactly `title, description, publishDate, tags, draft`, in that order. */
  lemma FullHeaderOrder(front: Header)
    requires HasKey(front, "title") && HasKey(front, "summary") && HasKey(front, "date") && HasKey(front, "tags")
    requires HasKey(front, "draft") && Truthy(Lookup(front, "draft").value)
    ensures |ConvertFrontmatter(front)| == 5
    ensures forall i :: 0 <= i < 5 ==> ConvertFrontmatter(front)[i].0 == NewKeys[i]
  {
    var r := ConvertFrontmatter(front);
    var v1 := StrOf(Lookup(front, "title"));
    var v2 := StrOf(Lookup(front, "summary"));
    var v3 := DateOf(Lookup(front, "date"));
    var v4 := Lookup(front, "tags");
    var v5 := DraftOf(Lookup(front, "draft"));
    assert r == [] + Entry("title", v1) + Entry("description", v2) + Entry("publishDate", v3)
                   + Entry("tags", v4) + Entry("draft", v5);
    assert |r| == 5;
    assert Rank(r[0].0) < Rank(r[1].0) < Rank(r[2].0) < Rank(r[3].0) < Rank(r[4].0) < 5;
    forall i | 0 <= i < 5
      ensures r[i].0 == NewKeys[i]
    {
      RankNames(r[i].0);
    }
  }

  /** In an ordered header the first key has the least rank and does not
      occur again. */
  lemma OrderedHead(h: Header)
    requires Ordered(h) && h != []
    ensures forall k :: HasKey(h, k) ==> Rank(h[0].0) <= Rank(k)
    ensures !HasKey(h[1..], h[0].0)
    ensures Ordered(h[1..])
  {
    assert forall i :: 0 <= i < |h[1..]| ==> h[1..][i] == h[i + 1];
  }

  /** Two headers that agree on every new-schema key. */
  ghost predicate SameLookups(a: Header, b: Header)
  {
    forall k :: Rank(k) < |NewKeys| ==> Lookup(a, k) == Lookup(b, k)
  }

  lemma EmptyFromLookups(a: Header, b: Header)
    requires InSchema(a) && InSchema(b) && SameLookups(a, b)
    requires a == [] || b == []
    ensures a == b
  {
    assert a != [] ==> Lookup(a, a[0].0).Some?;
    assert b != [] ==> Lookup(b, b[0].0).Some?;
  }

  lemma HeadFromLookups(a: Header, b: Header)
    requires InSchema(a) && Ordered(a) && InSchema(b) && Ordered(b) && SameLookups(a, b)
    requires a != [] && b != []
    ensures a[0] == b[0]
  {
    var ka, kb := a[0].0, b[0].0;
    OrderedHead(a);
    OrderedHead(b);
    assert HasKey(a, ka) && HasKey(b, kb);
    assert Lookup(b, ka).Some? && Lookup(a, kb).Some?;
    assert Rank(ka) == Rank(kb);
    RankNames(ka);
    RankNames(kb);
  }

  lemma TailFromLookups(a: Header, b: Header)
    requires Ordered(a) && Ordered(b) && SameLookups(a, b)
    requires a != [] && b != [] && a[0] == b[0]
    ensures SameLookups(a[1..], b[1..])
  {
    var ka := a[0].0;
    OrderedHead(a);
    OrderedHead(b);
    forall k | Rank(k) < |NewKeys|
      ensures Lookup(a[1..], k) == Lookup(b[1..], k)
    {
      if k == ka {
        assert Lookup(a[1..], k).None? && Lookup(b[1..], k).None?;
      } else {
        assert Lookup(a, k) == Lookup(a[1..], k);
        assert Lookup(b, k) == Lookup(b[1..], k);
      }
    }
  }

  /** An ordered header of new-schema keys is determined by what it holds
      under each key. */
  lemma {:induction false} OrderedUnique(a: Header, b: Header)
    requires InSchema(a) && Ordered(a) && InSchema(b) && Ordered(b)
    requires SameLookups(a, b)
    ensures a == b
    decreases |a|
  {
    if a == [] || b == [] {
      EmptyFromLookups(a, b);
    } else {
      HeadFromLookups(a, b);
      TailFromLookups(a, b);
      OrderedHead(a);
      OrderedHead(b);
      OrderedUnique(a[1..], b[1..]);
      assert a == [a[0]] + a[1..];
      assert b == [b[0]] + b[1..];
    }
  }

  /** Running the mapper on its own output keeps `title` (already a
      string), `tags` and `draft`, and drops `description` and
      `publishDate`, whose names are not old-schema keys. */
  lemma Reconvert(front: Header)
    ensures var once := ConvertFrontmatter(front);
            var twice := ConvertFrontmatter(once);
            Lookup(twice, "title") == Lookup(once, "title") &&
            Lookup(twice, "tags") == Lookup(once, "tags") &&
            Lookup(twice, "draft") == Lookup(once, "draft") &&
            Lookup(twice, "description").None? && Lookup(twice, "publishDate").None?
  {
    var once := ConvertFrontmatter(front);
    MapperLookup(front, "title");
    MapperLookup(front, "draft");
    MapperLookup(once, "title");
    MapperLookup(once, "tags");
    MapperLookup(once, "draft");
    MapperLookup(once, "description");
    MapperLookup(once, "publishDate");
    MapperLookup(front, "summary");
    MapperLookup(front, "date");
    assert Rank("summary") == 5 && Rank("date") == 5;
  }

  /** From the second run on the mapper changes nothing. */
  lemma SecondRunIsFixpoint(front: Header)
    ensures var twice := ConvertFrontmatter(ConvertFrontmatter(front));
            ConvertFrontmatter(twice) == twice
  {
    var once := ConvertFrontmatter(front);
    var twice := ConvertFrontmatter(once);
    var thrice := ConvertFrontmatter(twice);
    Reconvert(once);
    Reconvert(front);
    forall k | Rank(k) < |NewKeys|
      ensures Lookup(thrice, k) == Lookup(twice, k)
    {
      RankNames(k);
      if Rank(k) == 0 {
        assert k == "title";
      } else if Rank(k) == 1 {
        assert k == "description";
      } else if Rank(k) == 2 {
        assert k == "publishDate";
      } else if Rank(k) == 3 {
        assert k == "tags";
      } else {
        assert k == "draft";
      }
    }
    OrderedUnique(thrice, twice);
  }

  /** The script's own example, end to end: a `date` of
      `2023-03-22T00:00:00-0800` becomes a `publishDate` of `22 Mar 2023`. */
  lemma ExamplePublishDate(front: Header, s: string)
    requires s == "2023-03-22T00:00:00-0800"
    requires Lookup(front, "date") == Some(Str(s))
    ensures Lookup(ConvertFrontmatter(front), "publishDate") == Some(Str("22 Mar 2023"))
  {
    MapperLookup(front, "publishDate");
    ExampleOffsetDate(s);
  }
}
