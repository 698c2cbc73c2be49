/** What TeiEditionsTeiEnhancer::getReferences computes, as functions over the
    mentions of the two searched regions in document order: the anchors it
    writes, the counter it advances and the text-to-reference map it returns. */
module ReferenceExtraction {
  import opened PhpBuiltins
  import opened TeiModel

  /** A mention of `tag` without @ref: it receives a local anchor. */
  predicate Pending(m: Mention, tag: string)
  {
    m.tag == tag && m.ref.None?
  }

  /** A mention of `tag` that already carries a @ref. */
  predicate Linked(m: Mention, tag: string)
  {
    m.tag == tag && m.ref.Some?
  }

  /** The local anchor `#<docid>_<n>`. */
  function Anchor(docid: string, n: nat): (r: string)
  {
    "#" + docid + "_" + DecimalString(n)
  }

  /** Within one document, anchors with different numbers differ. */
  lemma AnchorInjective(docid: string, m: nat, n: nat)
    requires Anchor(docid, m) == Anchor(docid, n)
    ensures m == n
  {
    var p := |docid| + 2;
    assert Anchor(docid, m)[p..] == DecimalString(m);
    assert Anchor(docid, n)[p..] == DecimalString(n);
    DecimalStringInjective(m, n);
  }

  /** How many mentions of `tag` lack a @ref, i.e. how far the counter advances. */
  function Count(ms: seq<Mention>, tag: string): nat
  {
    if ms == [] then 0
    else Count(ms[..|ms| - 1], tag) + (if Pending(ms[|ms| - 1], tag) then 1 else 0)
  }

  /** A mention after its visit, when the counter stood at `n` before it. */
  function Marked(m: Mention, tag: string, docid: string, n: nat): (r: Mention)
    ensures r.tag == m.tag && r.text == m.text
    ensures Pending(m, tag) ==> r.ref == Some(Anchor(docid, n + 1))
    ensures !Pending(m, tag) ==> r == m
  {
    if Pending(m, tag) then m.(ref := Some(Anchor(docid, n + 1))) else m
  }

  /** The mentions of a region after getReferences, the counter starting at `idx`. */
  function Mark(ms: seq<Mention>, tag: string, docid: string, idx: nat): (r: seq<Mention>)
    ensures |r| == |ms|
  {
    if ms == [] then []
    else
      var init := ms[..|ms| - 1];
      Mark(init, tag, docid, idx) + [Marked(ms[|ms| - 1], tag, docid, idx + Count(init, tag))]
  }

  /** The locals of getReferences: the counter `$idx`, `$names` (text to
      anchor) and `$urls` (ref to text, in insertion order). */
  datatype Acc = Acc(idx: nat, names: map<string, string>, urls: PhpArray)

  function Start(idx: nat): Acc
  {
    Acc(idx, map[], [])
  }

  /** One iteration of the inner loop of getReferences. */
  function Visit(acc: Acc, m: Mention, tag: string, docid: string): (r: Acc)
    requires UniqueKeys(acc.urls)
    ensures UniqueKeys(r.urls)
  {
    if m.tag != tag then acc
    else
      match m.ref
      case Some(r) => acc.(urls := Put(acc.urls, r, m.text))
      case None => acc.(idx := acc.idx + 1, names := acc.names[m.text := Anchor(docid, acc.idx + 1)])
  }

  /** What one visit does: a pending mention advances the counter and maps
      its text to the new anchor; a linked one records its (ref, text) pair;
      a mention of another tag changes nothing. */
  lemma VisitEffect(acc: Acc, m: Mention, tag: string, docid: string)
    requires UniqueKeys(acc.urls)
    ensures var r := Visit(acc, m, tag, docid);
            r.idx == acc.idx + (if Pending(m, tag) then 1 else 0)
            && (Pending(m, tag) ==> m.text in r.names && r.names[m.text] == Anchor(docid, r.idx) && r.urls == acc.urls)
            && (Linked(m, tag) ==> (m.ref.value, m.text) in r.urls && r.names == acc.names)
            && (m.tag != tag ==> r == acc)
  {
  }

  /** The locals after visiting a region's mentions in order. */
  function Scan(ms: seq<Mention>, tag: string, docid: string, acc: Acc): (r: Acc)
    requires UniqueKeys(acc.urls)
    ensures UniqueKeys(r.urls)
    ensures r.idx == acc.idx + Count(ms, tag)
  {
    if ms == [] then acc
    else Visit(Scan(ms[..|ms| - 1], tag, docid, acc), ms[|ms| - 1], tag, docid)
  }

  /** `array_merge($names, array_flip($urls))` (string keys: the flipped map wins). */
  function Result(acc: Acc): (r: map<string, string>)
    ensures forall t :: t in r <==> t in acc.names || t in Flip(acc.urls)
    ensures forall t :: t in Flip(acc.urls) ==> r[t] == Flip(acc.urls)[t]
    ensures forall t :: t in acc.names && t !in Flip(acc.urls) ==> r[t] == acc.names[t]
  {
    acc.names + Flip(acc.urls)
  }

  /** The map getReferences returns: the creation zone is scanned before the body. */
  function References(creation: seq<Mention>, body: seq<Mention>, tag: string, docid: string, idx: nat): (r: map<string, string>)
    ensures r == Result(Scan(creation + body, tag, docid, Start(idx)))
  {
    ScanAppend(creation, body, tag, docid, Start(idx));
    Result(Scan(body, tag, docid, Scan(creation, tag, docid, Start(idx))))
  }

  // ---------------------------------------------------------------------
  // Concatenation: scanning two regions is scanning their concatenation.

  lemma {:induction false} CountAppend(a: seq<Mention>, b: seq<Mention>, tag: string)
    ensures Count(a + b, tag) == Count(a, tag) + Count(b, tag)
    decreases |b|
  {
    if b == [] {
      assert a + b == a;
    } else {
      var ab := a + b;
      assert ab[..|ab| - 1] == a + b[..|b| - 1];
      CountAppend(a, b[..|b| - 1], tag);
    }
  }

  /** Marking the body with the counter the creation zone left behind marks
      the two regions as one sequence. */
  lemma {:induction false} MarkAppend(a: seq<Mention>, b: seq<Mention>, tag: string, docid: string, idx: nat)
    ensures Mark(a + b, tag, docid, idx) == Mark(a, tag, docid, idx) + Mark(b, tag, docid, idx + Count(a, tag))
    decreases |b|
  {
    if b == [] {
      assert a + b == a;
    } else {
      var ab := a + b;
      var bi := b[..|b| - 1];
      assert ab[..|ab| - 1] == a + bi;
      MarkAppend(a, bi, tag, docid, idx);
      CountAppend(a, bi, tag);
    }
  }

  lemma {:induction false} ScanAppend(a: seq<Mention>, b: seq<Mention>, tag: string, docid: string, acc: Acc)
    requires UniqueKeys(acc.urls)
    ensures Scan(a + b, tag, docid, acc) == Scan(b, tag, docid, Scan(a, tag, docid, acc))
    decreases |b|
  {
    if b == [] {
      assert a + b == a;
    } else {
      var ab := a + b;
      var bi := b[..|b| - 1];
      assert ab[..|ab| - 1] == a + bi;
      ScanAppend(a, bi, tag, docid, acc);
    }
  }

  // ---------------------------------------------------------------------
  // Anchors: format, numbering, uniqueness.

  /** Each mention of `tag` without @ref receives `#<docid>_<n>`, where n is
      the counter after one more increment; every other mention is unchanged. */
  lemma {:induction false} MarkAt(ms: seq<Mention>, tag: string, docid: string, idx: nat, k: nat)
    requires k < |ms|
    ensures Mark(ms, tag, docid, idx)[k] == Marked(ms[k], tag, docid, idx + Count(ms[..k], tag))
    decreases |ms|
  {
    var init := ms[..|ms| - 1];
    if k < |ms| - 1 {
      MarkAt(init, tag, docid, idx, k);
      assert init[..k] == ms[..k];
    }
  }

  lemma CountSingle(m: Mention, tag: string)
    ensures Count([m], tag) == if Pending(m, tag) then 1 else 0
  {
    assert [m][..0] == [];
  }

  /** The counter never goes back, and moves on past every pending mention. */
  lemma CountPrefix(ms: seq<Mention>, tag: string, i: nat, j: nat)
    requires i < j <= |ms|
    ensures Count(ms[..i], tag) + (if Pending(ms[i], tag) then 1 else 0) <= Count(ms[..j], tag)
  {
    assert ms[..j] == ms[..i] + ([ms[i]] + ms[i + 1..j]);
    CountAppend(ms[..i], [ms[i]] + ms[i + 1..j], tag);
    CountAppend([ms[i]], ms[i + 1..j], tag);
    CountSingle(ms[i], tag);
  }

  /** Anchors written in one call are numbered idx+1 .. idx+Count. */
  lemma AnchorRange(ms: seq<Mention>, tag: string, docid: string, idx: nat, k: nat)
    requires k < |ms| && Pending(ms[k], tag)
    ensures exists n :: idx < n <= idx + Count(ms, tag) && Mark(ms, tag, docid, idx)[k].ref == Some(Anchor(docid, n))
  {
    MarkAt(ms, tag, docid, idx, k);
    CountPrefix(ms, tag, k, |ms|);
    assert ms[..|ms|] == ms;
    var n := idx + Count(ms[..k], tag) + 1;
    assert Mark(ms, tag, docid, idx)[k].ref == Some(Anchor(docid, n));
  }

  /** Two mentions anchored in the same call receive different anchors. */
  lemma AnchorsDistinct(ms: seq<Mention>, tag: string, docid: string, idx: nat, p: nat, q: nat)
    requires p < q < |ms| && Pending(ms[p], tag) && Pending(ms[q], tag)
    ensures Mark(ms, tag, docid, idx)[p].ref != Mark(ms, tag, docid, idx)[q].ref
  {
    MarkAt(ms, tag, docid, idx, p);
    MarkAt(ms, tag, docid, idx, q);
    CountPrefix(ms, tag, p, q);
    var np, nq := idx + Count(ms[..p], tag) + 1, idx + Count(ms[..q], tag) + 1;
    if Anchor(docid, np) == Anchor(docid, nq) {
      AnchorInjective(docid, np, nq);
    }
  }

  // ---------------------------------------------------------------------
  // Idempotence.

  /** After a call, no mention of the tag is without a @ref. */
  lemma {:induction false} MarkCompletes(ms: seq<Mention>, tag: string, docid: string, idx: nat)
    ensures Count(Mark(ms, tag, docid, idx), tag) == 0
    decreases |ms|
  {
    if ms != [] {
      var r := Mark(ms, tag, docid, idx);
      assert r[..|r| - 1] == Mark(ms[..|ms| - 1], tag, docid, idx);
      MarkCompletes(ms[..|ms| - 1], tag, docid, idx);
    }
  }

  /** With nothing pending, a call changes no mention. */
  lemma {:induction false} MarkNothingPending(ms: seq<Mention>, tag: string, docid: string, idx: nat)
    requires Count(ms, tag) == 0
    ensures Mark(ms, tag, docid, idx) == ms
    decreases |ms|
  {
    if ms != [] {
      var init, last := ms[..|ms| - 1], ms[|ms| - 1];
      assert Count(init, tag) == 0 && !Pending(last, tag);
      MarkNothingPending(init, tag, docid, idx);
      assert Marked(last, tag, docid, idx + Count(init, tag)) == last;
      assert ms == init + [last];
    }
  }

  /** With nothing pending, a call adds no name and leaves the counter alone. */
  lemma {:induction false} ScanNothingPending(ms: seq<Mention>, tag: string, docid: string, acc: Acc)
    requires UniqueKeys(acc.urls) && Count(ms, tag) == 0
    ensures Scan(ms, tag, docid, acc).names == acc.names
    ensures Scan(ms, tag, docid, acc).idx == acc.idx
    decreases |ms|
  {
    if ms != [] {
      ScanNothingPending(ms[..|ms| - 1], tag, docid, acc);
    }
  }

  /** A region without a mention of `tag` leaves the locals as they were. */
  lemma {:induction false} ScanNoMention(ms: seq<Mention>, tag: string, docid: string, acc: Acc)
    requires UniqueKeys(acc.urls) && forall k :: 0 <= k < |ms| ==> ms[k].tag != tag
    ensures Scan(ms, tag, docid, acc) == acc
    decreases |ms|
  {
    if ms != [] {
      ScanNoMention(ms[..|ms| - 1], tag, docid, acc);
    }
  }

  /** A second call on the same tag changes no mention and does not advance the counter. */
  lemma SecondCallChangesNothing(ms: seq<Mention>, tag: string, docid: string, idx: nat, docid': string, idx': nat)
    ensures Mark(Mark(ms, tag, docid, idx), tag, docid', idx') == Mark(ms, tag, docid, idx)
    ensures Count(Mark(ms, tag, docid, idx), tag) == 0
  {
    MarkCompletes(ms, tag, docid, idx);
    MarkNothingPending(Mark(ms, tag, docid, idx), tag, docid', idx');
  }

  // ---------------------------------------------------------------------
  // The returned map.

  lemma {:induction false} ScanUrlsFromMentions(ms: seq<Mention>, tag: string, docid: string, idx: nat)
    ensures forall p :: p in Scan(ms, tag, docid, Start(idx)).urls ==>
              exists k :: 0 <= k < |ms| && Linked(ms[k], tag) && ms[k].ref == Some(p.0) && ms[k].text == p.1
    decreases |ms|
  {
    if ms != [] {
      var init := ms[..|ms| - 1];
      ScanUrlsFromMentions(init, tag, docid, idx);
      forall p | p in Scan(ms, tag, docid, Start(idx)).urls
        ensures exists k :: 0 <= k < |ms| && Linked(ms[k], tag) && ms[k].ref == Some(p.0) && ms[k].text == p.1
      {
        var last := ms[|ms| - 1];
        if Linked(last, tag) && p == (last.ref.value, last.text) {
          assert Linked(ms[|ms| - 1], tag);
        } else {
          var k :| 0 <= k < |init| && Linked(init[k], tag) && init[k].ref == Some(p.0) && init[k].text == p.1;
          assert ms[k] == init[k];
        }
      }
    }
  }

  /** Every entry of `$names` was written by a pending mention with that
      text, and holds the anchor that mention received. */
  lemma {:induction false} ScanNameOrigin(ms: seq<Mention>, tag: string, docid: string, idx: nat, t: string)
    returns (k: nat)
    requires t in Scan(ms, tag, docid, Start(idx)).names
    ensures k < |ms| && Pending(ms[k], tag) && ms[k].text == t
    ensures Scan(ms, tag, docid, Start(idx)).names[t] == Anchor(docid, idx + Count(ms[..k], tag) + 1)
    decreases |ms|
  {
    var init := ms[..|ms| - 1];
    var last := ms[|ms| - 1];
    var acc := Scan(init, tag, docid, Start(idx));
    var names := Scan(ms, tag, docid, Start(idx)).names;
    assert names == Visit(acc, last, tag, docid).names;
    if Pending(last, tag) && t == last.text {
      k := |ms| - 1;
      assert ms[..k] == init;
    } else {
      assert t in acc.names && names[t] == acc.names[t];
      k := ScanNameOrigin(init, tag, docid, idx, t);
      assert ms[k] == init[k] && ms[..k] == init[..k];
    }
  }

  lemma {:induction false} ScanNamesComplete(ms: seq<Mention>, tag: string, docid: string, idx: nat, k: nat)
    requires k < |ms| && Pending(ms[k], tag)
    ensures ms[k].text in Scan(ms, tag, docid, Start(idx)).names
    decreases |ms|
  {
    var init := ms[..|ms| - 1];
    if k < |ms| - 1 {
      ScanNamesComplete(init, tag, docid, idx, k);
    }
  }

  lemma {:induction false} ScanNamesLast(ms: seq<Mention>, tag: string, docid: string, idx: nat, k: nat)
    requires k < |ms| && Pending(ms[k], tag)
    requires forall j :: k < j < |ms| && Pending(ms[j], tag) ==> ms[j].text != ms[k].text
    ensures ms[k].text in Scan(ms, tag, docid, Start(idx)).names
    ensures Scan(ms, tag, docid, Start(idx)).names[ms[k].text] == Anchor(docid, idx + Count(ms[..k], tag) + 1)
    decreases |ms|
  {
    var init := ms[..|ms| - 1];
    if k < |ms| - 1 {
      ScanNamesLast(init, tag, docid, idx, k);
      assert init[..k] == ms[..k];
    }
  }

  lemma {:induction false} ScanUrlsLast(ms: seq<Mention>, tag: string, docid: string, idx: nat, k: nat)
    requires k < |ms| && Linked(ms[k], tag)
    requires forall j :: k < j < |ms| && Linked(ms[j], tag) ==> ms[j].ref != ms[k].ref
    ensures (ms[k].ref.value, ms[k].text) in Scan(ms, tag, docid, Start(idx)).urls
    decreases |ms|
  {
    var init := ms[..|ms| - 1];
    if k < |ms| - 1 {
      ScanUrlsLast(init, tag, docid, idx, k);
    }
  }

  /** One entry of the map: the text of a matched mention with the @ref it carries afterwards. */
  lemma ResultEntry(all: seq<Mention>, tag: string, docid: string, idx: nat, t: string)
    requires t in Result(Scan(all, tag, docid, Start(idx)))
    ensures exists k :: 0 <= k < |all| && all[k].tag == tag && all[k].text == t
              && Mark(all, tag, docid, idx)[k].ref == Some(Result(Scan(all, tag, docid, Start(idx)))[t])
  {
    var acc := Scan(all, tag, docid, Start(idx));
    if t in Flip(acc.urls) {
      UrlEntry(all, tag, docid, idx, t);
    } else {
      NameEntry(all, tag, docid, idx, t);
    }
  }

  lemma UrlEntry(all: seq<Mention>, tag: string, docid: string, idx: nat, t: string)
    requires t in Flip(Scan(all, tag, docid, Start(idx)).urls)
    ensures exists k :: 0 <= k < |all| && all[k].tag == tag && all[k].text == t
              && Mark(all, tag, docid, idx)[k].ref == Some(Flip(Scan(all, tag, docid, Start(idx)).urls)[t])
  {
    var urls := Scan(all, tag, docid, Start(idx)).urls;
    var r := Flip(urls)[t];
    FlipEntry(urls, t);
    ScanUrlsFromMentions(all, tag, docid, idx);
    var k := LinkedWitness(all, tag, docid, idx, r, t);
    MarkAt(all, tag, docid, idx, k);
    assert Mark(all, tag, docid, idx)[k] == all[k];
  }

  lemma FlipEntry(urls: PhpArray, t: string)
    requires t in Flip(urls)
    ensures (Flip(urls)[t], t) in urls
  {
  }

  lemma LinkedWitness(all: seq<Mention>, tag: string, docid: string, idx: nat, r: string, t: string) returns (k: nat)
    requires (r, t) in Scan(all, tag, docid, Start(idx)).urls
    ensures k < |all| && Linked(all[k], tag) && all[k].ref == Some(r) && all[k].text == t
  {
    ScanUrlsFromMentions(all, tag, docid, idx);
    k :| 0 <= k < |all| && Linked(all[k], tag) && all[k].ref == Some(r) && all[k].text == t;
  }

  lemma NameEntry(all: seq<Mention>, tag: string, docid: string, idx: nat, t: string)
    requires t in Scan(all, tag, docid, Start(idx)).names
    ensures exists k :: 0 <= k < |all| && all[k].tag == tag && all[k].text == t
              && Mark(all, tag, docid, idx)[k].ref == Some(Scan(all, tag, docid, Start(idx)).names[t])
  {
    var k := ScanNameOrigin(all, tag, docid, idx, t);
    MarkAt(all, tag, docid, idx, k);
  }

  /** Every entry of the returned map is the text of a matched mention
      together with the @ref that mention carries after the call. */
  lemma ReferencesPointAtMentions(creation: seq<Mention>, body: seq<Mention>, tag: string, docid: string, idx: nat)
    ensures var all := creation + body;
            var r := References(creation, body, tag, docid, idx);
            forall t :: t in r ==>
              exists k :: 0 <= k < |all| && all[k].tag == tag && all[k].text == t
                && Mark(all, tag, docid, idx)[k].ref == Some(r[t])
  {
    var all := creation + body;
    ScanAppend(creation, body, tag, docid, Start(idx));
    var r := References(creation, body, tag, docid, idx);
    assert r == Result(Scan(all, tag, docid, Start(idx)));
    forall t | t in r
      ensures exists k :: 0 <= k < |all| && all[k].tag == tag && all[k].text == t
                && Mark(all, tag, docid, idx)[k].ref == Some(r[t])
    {
      ResultEntry(all, tag, docid, idx, t);
    }
  }

  /** The text of every mention that received an anchor is a key of the returned map. */
  lemma ReferencesCoverAnchoredTexts(creation: seq<Mention>, body: seq<Mention>, tag: string, docid: string, idx: nat)
    ensures var all := creation + body;
            forall k :: 0 <= k < |all| && Pending(all[k], tag) ==> all[k].text in References(creation, body, tag, docid, idx)
  {
    var all := creation + body;
    ScanAppend(creation, body, tag, docid, Start(idx));
    forall k | 0 <= k < |all| && Pending(all[k], tag)
      ensures all[k].text in References(creation, body, tag, docid, idx)
    {
      ScanNamesComplete(all, tag, docid, idx, k);
    }
  }

  /** An existing @ref beats a fresh anchor: the text of the last mention
      carrying a given @ref maps to an existing @ref with that text. */
  lemma ExistingRefWins(creation: seq<Mention>, body: seq<Mention>, tag: string, docid: string, idx: nat, k: nat)
    requires k < |creation + body| && Linked((creation + body)[k], tag)
    requires forall j :: k < j < |creation + body| && Linked((creation + body)[j], tag) ==>
               (creation + body)[j].ref != (creation + body)[k].ref
    ensures var all := creation + body;
            var r := References(creation, body, tag, docid, idx);
            all[k].text in r &&
            exists j :: 0 <= j < |all| && Linked(all[j], tag) && all[j].text == all[k].text && all[j].ref == Some(r[all[k].text])
  {
    var all := creation + body;
    ScanAppend(creation, body, tag, docid, Start(idx));
    var acc := Scan(all, tag, docid, Start(idx));
    var r := References(creation, body, tag, docid, idx);
    ScanUrlsLast(all, tag, docid, idx, k);
    var t := all[k].text;
    assert t in Flip(acc.urls);
    assert (r[t], t) in acc.urls;
    ScanUrlsFromMentions(all, tag, docid, idx);
  }

  /** For a repeated text among mentions with @ref, the later one wins: when
      the last linked mention with a text is the first to carry its @ref and
      no later mention carries that @ref again, the text maps to that @ref. */
  lemma LastLinkWins(creation: seq<Mention>, body: seq<Mention>, tag: string, docid: string, idx: nat, k: nat)
    requires k < |creation + body| && Linked((creation + body)[k], tag)
    requires forall j :: 0 <= j < k && Linked((creation + body)[j], tag) ==>
               (creation + body)[j].ref != (creation + body)[k].ref
    requires forall j :: k < j < |creation + body| && Linked((creation + body)[j], tag) ==>
               (creation + body)[j].ref != (creation + body)[k].ref && (creation + body)[j].text != (creation + body)[k].text
    ensures var all := creation + body;
            var r := References(creation, body, tag, docid, idx);
            all[k].text in r && r[all[k].text] == all[k].ref.value
  {
    var all := creation + body;
    ScanAppend(creation, body, tag, docid, Start(idx));
    var acc := Scan(all, tag, docid, Start(idx));
    var i := ScanUrlsLatest(all, tag, docid, idx, k);
    assert Flip(acc.urls)[acc.urls[i].1] == acc.urls[i].0;
  }

  /** Where the pair of a @ref sits in `$urls`: a @ref first met at mention k
      is appended then, and overwritten only by later mentions with that @ref;
      every pair after it was written by a later linked mention. */
  lemma {:induction false} ScanUrlsLatest(ms: seq<Mention>, tag: string, docid: string, idx: nat, k: nat)
    returns (i: nat)
    requires k < |ms| && Linked(ms[k], tag)
    requires forall j :: 0 <= j < k && Linked(ms[j], tag) ==> ms[j].ref != ms[k].ref
    requires forall j :: k < j < |ms| && Linked(ms[j], tag) ==> ms[j].ref != ms[k].ref && ms[j].text != ms[k].text
    ensures var urls := Scan(ms, tag, docid, Start(idx)).urls;
            i < |urls| && urls[i] == (ms[k].ref.value, ms[k].text)
            && forall j :: i < j < |urls| ==> urls[j].1 != ms[k].text
    decreases |ms|
  {
    var init := ms[..|ms| - 1];
    var last := ms[|ms| - 1];
    var acc := Scan(init, tag, docid, Start(idx));
    assert Scan(ms, tag, docid, Start(idx)) == Visit(acc, last, tag, docid);
    var r := ms[k].ref.value;
    if k == |ms| - 1 {
      ScanUrlsFromMentions(init, tag, docid, idx);
      forall j | 0 <= j < |acc.urls| ensures acc.urls[j].0 != r {
        var p := acc.urls[j];
        var j' :| 0 <= j' < |init| && Linked(init[j'], tag) && init[j'].ref == Some(p.0) && init[j'].text == p.1;
        assert ms[j'] == init[j'];
      }
      i := |acc.urls|;
    } else {
      forall j | k < j < |init| && Linked(init[j], tag)
        ensures init[j].ref != init[k].ref && init[j].text != init[k].text
      {
        assert init[j] == ms[j];
      }
      i := ScanUrlsLatest(init, tag, docid, idx, k);
      assert init[k] == ms[k];
      if Linked(last, tag) {
        PutKeepsLatest(acc.urls, i, r, ms[k].text, last.ref.value, last.text);
      }
    }
  }

  /** Writing another key with another text keeps a pair where it is, and
      keeps its text from appearing after it. */
  lemma PutKeepsLatest(urls: PhpArray, i: nat, r: string, t: string, r': string, t': string)
    requires UniqueKeys(urls) && i < |urls| && urls[i] == (r, t)
    requires forall j :: i < j < |urls| ==> urls[j].1 != t
    requires r' != r && t' != t
    ensures var u := Put(urls, r', t');
            i < |u| && u[i] == (r, t) && forall j :: i < j < |u| ==> u[j].1 != t
  {
    match KeyIndex(urls, r')
    case Some(p) =>
      assert p != i;
    case None =>
  }

  /** A text that no mention with @ref carries maps to the anchor of its last
      anchored occurrence: for a repeated text the later occurrence wins. */
  lemma LastAnchorWins(creation: seq<Mention>, body: seq<Mention>, tag: string, docid: string, idx: nat, k: nat)
    requires k < |creation + body| && Pending((creation + body)[k], tag)
    requires forall j :: 0 <= j < |creation + body| && Linked((creation + body)[j], tag) ==>
               (creation + body)[j].text != (creation + body)[k].text
    requires forall j :: k < j < |creation + body| && Pending((creation + body)[j], tag) ==>
               (creation + body)[j].text != (creation + body)[k].text
    ensures var all := creation + body;
            var r := References(creation, body, tag, docid, idx);
            all[k].text in r && Mark(all, tag, docid, idx)[k].ref == Some(r[all[k].text])
  {
    ScanAppend(creation, body, tag, docid, Start(idx));
    LastAnchorEntry(creation + body, tag, docid, idx, k);
  }

  lemma LastAnchorEntry(all: seq<Mention>, tag: string, docid: string, idx: nat, k: nat)
    requires k < |all| && Pending(all[k], tag)
    requires forall j :: 0 <= j < |all| && Linked(all[j], tag) ==> all[j].text != all[k].text
    requires forall j :: k < j < |all| && Pending(all[j], tag) ==> all[j].text != all[k].text
    ensures all[k].text in Result(Scan(all, tag, docid, Start(idx)))
    ensures Mark(all, tag, docid, idx)[k].ref == Some(Result(Scan(all, tag, docid, Start(idx)))[all[k].text])
  {
    var acc := Scan(all, tag, docid, Start(idx));
    var t := all[k].text;
    ScanNamesLast(all, tag, docid, idx, k);
    NoUrlForText(all, tag, docid, idx, t);
    ResultOfName(acc, t);
    AnchorAt(all, tag, docid, idx, k, acc.names[t]);
  }

  lemma AnchorAt(all: seq<Mention>, tag: string, docid: string, idx: nat, k: nat, a: string)
    requires k < |all| && Pending(all[k], tag) && a == Anchor(docid, idx + Count(all[..k], tag) + 1)
    ensures Mark(all, tag, docid, idx)[k].ref == Some(a)
  {
    MarkAt(all, tag, docid, idx, k);
  }

  lemma ResultOfName(acc: Acc, t: string)
    requires t in acc.names && t !in Flip(acc.urls)
    ensures t in Result(acc) && Result(acc)[t] == acc.names[t]
  {
  }

  lemma NoUrlForText(all: seq<Mention>, tag: string, docid: string, idx: nat, t: string)
    requires forall j :: 0 <= j < |all| && Linked(all[j], tag) ==> all[j].text != t
    ensures t !in Flip(Scan(all, tag, docid, Start(idx)).urls)
  {
    ScanUrlsFromMentions(all, tag, docid, idx);
  }

  // ---------------------------------------------------------------------
  // The loop of getReferences over one region.

  /** Visiting one more mention of a region extends the marked prefix by that
      mention as `Marked` has it and the locals by one `Visit`. */
  lemma VisitNext(region: seq<Mention>, tag: string, docid: string, acc0: Acc, i: nat, acc: Acc)
    requires i < |region| && UniqueKeys(acc0.urls) && acc == Scan(region[..i], tag, docid, acc0)
    ensures UniqueKeys(acc.urls)
    ensures Scan(region[..i + 1], tag, docid, acc0) == Visit(acc, region[i], tag, docid)
    ensures Mark(region[..i + 1], tag, docid, acc0.idx)
            == Mark(region[..i], tag, docid, acc0.idx) + [Marked(region[i], tag, docid, acc.idx)]
  {
    var s := region[..i + 1];
    assert s[..|s| - 1] == region[..i] && s[|s| - 1] == region[i];
  }

  /** The body of the inner loop of getReferences: a mention of `tag` with
      @ref records its (ref, text) pair; one without gets the next anchor,
      which its text is mapped to. */
  method VisitMention(node: Mention, tag: string, docid: string, acc: Acc) returns (marked: Mention, next: Acc)
    requires UniqueKeys(acc.urls)
    ensures marked == Marked(node, tag, docid, acc.idx)
    ensures next == Visit(acc, node, tag, docid)
  {
    marked, next := node, acc;
    if node.tag == tag {
      match node.ref {
        case Some(r) =>
          next := next.(urls := Put(next.urls, r, node.text));
        case None =>
          next := next.(idx := next.idx + 1);
          var locUrl := Anchor(docid, next.idx);
          marked := node.(ref := Some(locUrl));
          next := next.(names := next.names[node.text := locUrl]);
      }
    }
  }

  /** The inner loop of getReferences over one region's mentions: anchors
      the mentions of `tag` without @ref in place and updates the locals. */
  method ScanRegion(region: seq<Mention>, tag: string, docid: string, acc0: Acc) returns (marked: seq<Mention>, acc: Acc)
    requires UniqueKeys(acc0.urls)
    ensures marked == Mark(region, tag, docid, acc0.idx)
    ensures acc == Scan(region, tag, docid, acc0)
  {
    marked := region;
    acc := acc0;
    var i := 0;
    while i < |region|
      invariant 0 <= i <= |region| && |marked| == |region|
      invariant marked[..i] == Mark(region[..i], tag, docid, acc0.idx)
      invariant forall j :: i <= j < |region| ==> marked[j] == region[j]
      invariant acc == Scan(region[..i], tag, docid, acc0)
    {
      VisitNext(region, tag, docid, acc0, i, acc);
      var node;
      node, acc := VisitMention(region[i], tag, docid, acc);
      marked := marked[i := node];
      assert marked[..i + 1] == marked[..i] + [node];
      i := i + 1;
    }
    assert region[..i] == region;
    assert marked[..i] == marked;
  }

  // ---------------------------------------------------------------------
  // Several tags in a row, the counter threaded from one to the next.

  /** The mentions after getReferences has run for each tag in turn. */
  function MarkAll(ms: seq<Mention>, tags: seq<string>, docid: string, idx: nat): (r: seq<Mention>)
    ensures |r| == |ms|
    decreases |tags|
  {
    if tags == [] then ms
    else MarkAll(Mark(ms, tags[0], docid, idx), tags[1..], docid, idx + Count(ms, tags[0]))
  }

  /** The first tag of a run marks; the rest run on its output with the advanced counter. */
  lemma MarkAllStep(ms: seq<Mention>, tags: seq<string>, docid: string, idx: nat,
                    ms': seq<Mention>, rest: seq<string>, idx': nat)
    requires tags != [] && ms' == Mark(ms, tags[0], docid, idx) && rest == tags[1..]
    requires idx' == idx + Count(ms, tags[0])
    ensures MarkAll(ms, tags, docid, idx) == MarkAll(ms', rest, docid, idx')
  {
  }

  /** The counter value when the tag at position c starts. */
  function Offset(ms: seq<Mention>, tags: seq<string>, c: nat): nat
    requires c <= |tags|
    decreases c
  {
    if c == 0 then 0 else Count(ms, tags[0]) + Offset(ms, tags[1..], c - 1)
  }

  predicate Distinct(tags: seq<string>)
  {
    forall i, j :: 0 <= i < j < |tags| ==> tags[i] != tags[j]
  }

  /** Anchoring one tag changes no mention of another tag. */
  lemma {:induction false} MarkOtherTag(ms: seq<Mention>, tag: string, other: string, docid: string, idx: nat)
    requires tag != other
    ensures Count(Mark(ms, tag, docid, idx), other) == Count(ms, other)
    ensures forall k :: 0 <= k < |ms| && ms[k].tag != tag ==> Mark(ms, tag, docid, idx)[k] == ms[k]
    ensures forall k :: 0 <= k < |ms| ==> Mark(ms, tag, docid, idx)[k].tag == ms[k].tag
    decreases |ms|
  {
    if ms != [] {
      var init := ms[..|ms| - 1];
      var r := Mark(ms, tag, docid, idx);
      MarkOtherTag(init, tag, other, docid, idx);
      assert r[..|r| - 1] == Mark(init, tag, docid, idx);
      forall k | 0 <= k < |ms|
        ensures ms[k].tag != tag ==> r[k] == ms[k]
        ensures r[k].tag == ms[k].tag
      {
        MarkAt(ms, tag, docid, idx, k);
      }
    }
  }

  lemma MarkPrefix(ms: seq<Mention>, tag: string, docid: string, idx: nat, k: nat)
    requires k <= |ms|
    ensures Mark(ms, tag, docid, idx)[..k] == Mark(ms[..k], tag, docid, idx)
  {
    assert ms == ms[..k] + ms[k..];
    MarkAppend(ms[..k], ms[k..], tag, docid, idx);
  }

  lemma {:induction false} OffsetMarkOther(ms: seq<Mention>, tag: string, tags: seq<string>, docid: string, idx: nat, c: nat)
    requires c <= |tags| && forall i :: 0 <= i < c ==> tags[i] != tag
    ensures Offset(Mark(ms, tag, docid, idx), tags, c) == Offset(ms, tags, c)
    decreases c
  {
    if c > 0 {
      MarkOtherTag(ms, tag, tags[0], docid, idx);
      OffsetMarkOther(ms, tag, tags[1..], docid, idx, c - 1);
    }
  }

  lemma {:induction false} OffsetStep(ms: seq<Mention>, tags: seq<string>, c: nat)
    requires c < |tags|
    ensures Offset(ms, tags, c + 1) == Offset(ms, tags, c) + Count(ms, tags[c])
    decreases c
  {
    if c > 0 {
      OffsetStep(ms, tags[1..], c - 1);
    }
  }

  lemma {:induction false} OffsetMonotone(ms: seq<Mention>, tags: seq<string>, c: nat, c': nat)
    requires c <= c' <= |tags|
    ensures Offset(ms, tags, c) <= Offset(ms, tags, c')
    decreases c' - c
  {
    if c < c' {
      OffsetStep(ms, tags, c);
      OffsetMonotone(ms, tags, c + 1, c');
    }
  }

  /** A mention that no tag of the run finds pending is left as it is. */
  lemma {:induction false} MarkAllKeeps(ms: seq<Mention>, tags: seq<string>, docid: string, idx: nat, k: nat)
    requires k < |ms| && forall c :: 0 <= c < |tags| ==> !Pending(ms[k], tags[c])
    ensures MarkAll(ms, tags, docid, idx)[k] == ms[k]
    decreases |tags|
  {
    if tags != [] {
      MarkAt(ms, tags[0], docid, idx, k);
      var next := Mark(ms, tags[0], docid, idx);
      assert next[k] == ms[k];
      MarkAllKeeps(next, tags[1..], docid, idx + Count(ms, tags[0]), k);
    }
  }

  /** A mention pending for the tag at position c receives the anchor numbered
      by the counter at the start of that tag plus its rank among that tag's
      pending mentions. */
  lemma {:induction false} MarkAllAt(ms: seq<Mention>, tags: seq<string>, docid: string, idx: nat, k: nat, c: nat)
    requires Distinct(tags) && c < |tags| && k < |ms| && Pending(ms[k], tags[c])
    ensures MarkAll(ms, tags, docid, idx)[k]
            == ms[k].(ref := Some(Anchor(docid, idx + Offset(ms, tags, c) + Count(ms[..k], tags[c]) + 1)))
    decreases |tags|
  {
    var next := Mark(ms, tags[0], docid, idx);
    var idx' := idx + Count(ms, tags[0]);
    var rest := tags[1..];
    MarkAllStep(ms, tags, docid, idx, next, rest, idx');
    MarkAt(ms, tags[0], docid, idx, k);
    if c == 0 {
      forall c' | 0 <= c' < |rest| ensures !Pending(next[k], rest[c']) {
        assert rest[c'] == tags[c' + 1];
      }
      MarkAllKeeps(next, rest, docid, idx', k);
    } else {
      assert tags[c] != tags[0];
      assert next[k] == ms[k];
      assert rest[c - 1] == tags[c];
      assert Distinct(rest) by {
        forall i, j | 0 <= i < j < |rest| ensures rest[i] != rest[j] {
          assert rest[i] == tags[i + 1] && rest[j] == tags[j + 1];
        }
      }
      MarkAllAt(next, rest, docid, idx', k, c - 1);
      MarkPrefix(ms, tags[0], docid, idx, k);
      MarkOtherTag(ms[..k], tags[0], tags[c], docid, idx);
      OffsetMarkOther(ms, tags[0], rest, docid, idx, c - 1);
      assert Offset(ms, tags, c) == Count(ms, tags[0]) + Offset(ms, rest, c - 1);
    }
  }

  /** Within one run over several tags, no two mentions receive the same anchor. */
  lemma MarkAllAnchorsUnique(ms: seq<Mention>, tags: seq<string>, docid: string, idx: nat, p: nat, q: nat, cp: nat, cq: nat)
    requires Distinct(tags) && p < |ms| && q < |ms| && p != q && cp < |tags| && cq < |tags|
    requires Pending(ms[p], tags[cp]) && Pending(ms[q], tags[cq])
    ensures MarkAll(ms, tags, docid, idx)[p].ref != MarkAll(ms, tags, docid, idx)[q].ref
  {
    MarkAllAt(ms, tags, docid, idx, p, cp);
    MarkAllAt(ms, tags, docid, idx, q, cq);
    var np := idx + Offset(ms, tags, cp) + Count(ms[..p], tags[cp]) + 1;
    var nq := idx + Offset(ms, tags, cq) + Count(ms[..q], tags[cq]) + 1;
    if cp == cq {
      if p < q { CountPrefix(ms, tags[cp], p, q); } else { CountPrefix(ms, tags[cp], q, p); }
    } else if cp < cq {
      EarlierTagLowerNumber(ms, tags, p, q, cp, cq);
    } else {
      EarlierTagLowerNumber(ms, tags, q, p, cq, cp);
    }
    assert np != nq;
    if Anchor(docid, np) == Anchor(docid, nq) {
      AnchorInjective(docid, np, nq);
    }
  }

  /** A mention of an earlier tag is numbered below every mention of a later tag. */
  lemma EarlierTagLowerNumber(ms: seq<Mention>, tags: seq<string>, p: nat, q: nat, cp: nat, cq: nat)
    requires p < |ms| && q < |ms| && cp < cq < |tags| && Pending(ms[p], tags[cp])
    ensures Offset(ms, tags, cp) + Count(ms[..p], tags[cp]) < Offset(ms, tags, cq) + Count(ms[..q], tags[cq])
  {
    CountPrefix(ms, tags[cp], p, |ms|);
    assert ms[..|ms|] == ms;
    OffsetStep(ms, tags, cp);
    OffsetMonotone(ms, tags, cp + 1, cq);
  }

  /** After a run over several tags, every mention of those tags carries a
      @ref; a mention that had one keeps it, a mention of another tag is unchanged. */
  lemma MarkAllCompletes(ms: seq<Mention>, tags: seq<string>, docid: string, idx: nat, k: nat)
    requires Distinct(tags) && k < |ms|
    ensures MarkAll(ms, tags, docid, idx)[k] == ms[k].(ref := MarkAll(ms, tags, docid, idx)[k].ref)
    ensures ms[k].tag in tags ==> MarkAll(ms, tags, docid, idx)[k].ref.Some?
    ensures ms[k].tag in tags && ms[k].ref.None? ==>
              exists n: nat :: n > idx && MarkAll(ms, tags, docid, idx)[k].ref == Some(Anchor(docid, n))
    ensures ms[k].ref.Some? || ms[k].tag !in tags ==> MarkAll(ms, tags, docid, idx)[k] == ms[k]
  {
    if ms[k].tag in tags && ms[k].ref.None? {
      var c :| 0 <= c < |tags| && tags[c] == ms[k].tag;
      MarkAllAt(ms, tags, docid, idx, k, c);
      var n := idx + Offset(ms, tags, c) + Count(ms[..k], tags[c]) + 1;
      assert MarkAll(ms, tags, docid, idx)[k].ref == Some(Anchor(docid, n));
    } else {
      MarkAllKeeps(ms, tags, docid, idx, k);
    }
  }

  lemma {:induction false} NoPendingNoCount(ms: seq<Mention>, tag: string)
    requires forall k :: 0 <= k < |ms| ==> !Pending(ms[k], tag)
    ensures Count(ms, tag) == 0
    decreases |ms|
  {
    if ms != [] {
      NoPendingNoCount(ms[..|ms| - 1], tag);
    }
  }

  /** A run over tags none of which has a pending mention changes nothing. */
  lemma {:induction false} MarkAllNothingPending(ms: seq<Mention>, tags: seq<string>, docid: string, idx: nat)
    requires forall c :: 0 <= c < |tags| ==> Count(ms, tags[c]) == 0
    ensures MarkAll(ms, tags, docid, idx) == ms
    ensures Offset(ms, tags, |tags|) == 0
    decreases |tags|
  {
    if tags != [] {
      var rest := tags[1..];
      assert Count(ms, tags[0]) == 0;
      assert forall c :: 0 <= c < |rest| ==> Count(ms, rest[c]) == 0 by {
        forall c | 0 <= c < |rest| ensures Count(ms, rest[c]) == 0 {
          assert rest[c] == tags[c + 1];
        }
      }
      MarkNothingPending(ms, tags[0], docid, idx);
      MarkAllNothingPending(ms, rest, docid, idx);
      MarkAllStep(ms, tags, docid, idx, ms, rest, idx);
      assert Offset(ms, tags, |tags|) == Count(ms, tags[0]) + Offset(ms, rest, |rest|);
    }
  }

  /** Running the same tags a second time changes no mention. */
  lemma MarkAllIdempotent(ms: seq<Mention>, tags: seq<string>, docid: string, idx: nat, docid': string, idx': nat)
    requires Distinct(tags)
    ensures MarkAll(MarkAll(ms, tags, docid, idx), tags, docid', idx') == MarkAll(ms, tags, docid, idx)
    ensures Offset(MarkAll(ms, tags, docid, idx), tags, |tags|) == 0
  {
    var r := MarkAll(ms, tags, docid, idx);
    forall c | 0 <= c < |tags| ensures Count(r, tags[c]) == 0 {
      forall k | 0 <= k < |r| ensures !Pending(r[k], tags[c]) {
        MarkAllCompletes(ms, tags, docid, idx, k);
      }
      NoPendingNoCount(r, tags[c]);
    }
    MarkAllNothingPending(r, tags, docid', idx');
  }
}
