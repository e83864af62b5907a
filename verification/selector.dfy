/**
 The weighted pick. Every entry puts its text into a pool once, a boosted
 entry a second time, and the result is the pool slot at a uniformly drawn
 index. The draw itself is not modelled: the index is a parameter in
 `[0, |pool|)`. Probabilities are stated as counts: how often a text occurs
 in the pool, and how many drawn indices pick it.
 */
module Selector {
  import opened Text
  import opened Options

  /** The pool slots one entry contributes, in push order. */
  function Copies(o: Option): seq<string> {
    if o.boosted then [o.text, o.text] else [o.text]
  }

  /** Weight of one entry: 2 when boosted, 1 otherwise. */
  function Weight(o: Option): nat {
    if o.boosted then 2 else 1
  }

  /** The pool: the `Copies` of every entry, in list order. */
  function Pool(options: seq<Option>): seq<string> {
    if |options| == 0 then [] else Copies(options[0]) + Pool(options[1..])
  }

  /** Number of boosted entries. */
  function BoostedCount(options: seq<Option>): nat {
    if |options| == 0 then 0
    else (if options[0].boosted then 1 else 0) + BoostedCount(options[1..])
  }

  /** Sum of `Weight` over the entries whose text is `t`. */
  function TextWeight(options: seq<Option>, t: string): nat {
    if |options| == 0 then 0
    else (if options[0].text == t then Weight(options[0]) else 0) + TextWeight(options[1..], t)
  }

  /**
   The loop of the pick handler: push each entry's text, and once more when
   it is boosted. It builds exactly `Pool`.
   */
  method BuildPool(options: seq<Option>) returns (pool: seq<string>)
    ensures pool == Pool(options)
  {
    pool := [];
    var i := 0;
    while i < |options|
      invariant 0 <= i <= |options|
      invariant pool == Pool(options[..i])
    {
      var opt := options[i];
      PoolExtend(options, i);
      pool := pool + [opt.text];
      if opt.boosted {
        pool := pool + [opt.text];
      }
      i := i + 1;
    }
    assert options[..i] == options;
  }

  /** Extending a prefix of the list by one entry extends its pool by that entry's copies. */
  lemma PoolExtend(options: seq<Option>, i: nat)
    requires i < |options|
    ensures Pool(options[..i + 1]) == Pool(options[..i]) + Copies(options[i])
  {
    assert options[..i + 1] == options[..i] + [options[i]];
    PoolAppend(options[..i], [options[i]]);
    SingleWeight(options[i], "");
  }

  /** The pool has one slot per entry plus one per boosted entry. */
  lemma {:induction false} PoolLength(options: seq<Option>)
    ensures |Pool(options)| == |options| + BoostedCount(options)
    decreases |options|
  {
    if |options| > 0 {
      PoolLength(options[1..]);
    }
  }

  /**
   The 2x weighting: every text occurs in the pool exactly as often as the
   summed weights of the entries carrying it.
   */
  lemma {:induction false} PoolCount(options: seq<Option>, t: string)
    ensures multiset(Pool(options))[t] == TextWeight(options, t)
    decreases |options|
  {
    if |options| > 0 {
      PoolCount(options[1..], t);
    }
  }

  /** The pool of a concatenation is the concatenation of the pools. */
  lemma {:induction false} PoolAppend(a: seq<Option>, b: seq<Option>)
    ensures Pool(a + b) == Pool(a) + Pool(b)
    decreases |a|
  {
    if |a| == 0 {
      assert a + b == b;
    } else {
      assert (a + b)[0] == a[0];
      assert (a + b)[1..] == a[1..] + b;
      PoolAppend(a[1..], b);
    }
  }

  /** Text weights add up over a concatenation. */
  lemma {:induction false} TextWeightAppend(a: seq<Option>, b: seq<Option>, t: string)
    ensures TextWeight(a + b, t) == TextWeight(a, t) + TextWeight(b, t)
    decreases |a|
  {
    if |a| == 0 {
      assert a + b == b;
    } else {
      assert (a + b)[0] == a[0];
      assert (a + b)[1..] == a[1..] + b;
      TextWeightAppend(a[1..], b, t);
    }
  }

  /** A one-entry list weighs its entry's weight for its own text and nothing for others. */
  lemma SingleWeight(x: Option, t: string)
    ensures TextWeight([x], t) == (if x.text == t then Weight(x) else 0)
    ensures Pool([x]) == Copies(x)
  {
    assert [x][1..] == [];
  }

  /** The pool of a non-empty prefix is the first entry's copies followed by the pool of the rest of that prefix. */
  lemma PoolPrefixHead(options: seq<Option>, m: nat)
    requires 0 < m <= |options|
    ensures Pool(options[..m]) == Copies(options[0]) + Pool(options[1..][..m - 1])
  {
    assert options[..m][0] == options[0];
    assert options[..m][1..] == options[1..][..m - 1];
  }

  /** The number of pool slots taken by the entries before entry `j`. */
  function Start(options: seq<Option>, j: nat): nat
    requires j <= |options|
  {
    if j == 0 then 0 else Weight(options[0]) + Start(options[1..], j - 1)
  }

  /** `Start` is the length of the pool of the first `j` entries. */
  lemma {:induction false} StartIsPrefixPool(options: seq<Option>, j: nat)
    requires j <= |options|
    ensures Start(options, j) == |Pool(options[..j])|
    decreases j
  {
    if j == 0 {
      assert options[..0] == [];
    } else {
      PoolPrefixHead(options, j);
      StartIsPrefixPool(options[1..], j - 1);
    }
  }

  /**
   The entry that pushed pool slot `k`: its index is in range, slot `k` lies
   among the `Weight` slots its own copies occupy right after the slots of
   the entries before it, and so the slot holds its text.
   */
  function Owner(options: seq<Option>, k: nat): (j: nat)
    requires k < |Pool(options)|
    ensures j < |options|
    ensures Start(options, j) <= k < Start(options, j) + Weight(options[j])
    ensures Pool(options)[k] == options[j].text
    decreases |options|
  {
    if k < Weight(options[0]) then
      0
    else
      1 + Owner(options[1..], k - Weight(options[0]))
  }

  /**
   The pick handler with the drawn index `k`: the chosen text is what pool
   slot `k` holds, which is the text of the entry that pushed that slot,
   and that text has positive weight.
   */
  function PickChosen(options: seq<Option>, k: nat): (r: string)
    requires k < |Pool(options)|
    ensures r == Pool(options)[k]
    ensures r == options[Owner(options, k)].text
    ensures exists j :: 0 <= j < |options| && r == options[j].text
    ensures TextWeight(options, r) > 0
  {
    PoolCount(options, Pool(options)[k]);
    Pool(options)[k]
  }

  /** The slots of `s` that hold `t`. */
  function Hits(s: seq<string>, t: string): set<nat> {
    set k: nat | k < |s| && s[k] == t
  }

  /** A sequence has as many slots holding `t` as its multiset counts copies of `t`. */
  lemma {:induction false} HitsCount(s: seq<string>, t: string)
    ensures |Hits(s, t)| == multiset(s)[t]
    decreases |s|
  {
    if |s| == 0 {
      assert Hits(s, t) == {};
    } else {
      var n := |s| - 1;
      var p := s[..n];
      HitsCount(p, t);
      assert s == p + [s[n]];
      if s[n] == t {
        assert Hits(s, t) == Hits(p, t) + {n};
        assert n !in Hits(p, t);
      } else {
        assert Hits(s, t) == Hits(p, t);
      }
    }
  }

  /**
   The 2x weighting as the pick sees it: among all indices the draw can
   give, exactly as many pick `t` as the summed weights of the entries
   carrying `t`.
   */
  lemma DrawCount(options: seq<Option>, t: string)
    ensures |set k: nat | k < |Pool(options)| && PickChosen(options, k) == t| == TextWeight(options, t)
  {
    var draws := set k: nat | k < |Pool(options)| && PickChosen(options, k) == t;
    assert draws == Hits(Pool(options), t);
    HitsCount(Pool(options), t);
    PoolCount(options, t);
  }

  /** A text is in the pool exactly when some entry carries it. */
  lemma {:induction false} InPoolIff(options: seq<Option>, t: string)
    ensures t in Pool(options) <==> exists j :: 0 <= j < |options| && options[j].text == t
    decreases |options|
  {
    if |options| > 0 {
      var rest := options[1..];
      InPoolIff(rest, t);
      if exists j :: 0 <= j < |rest| && rest[j].text == t {
        var j :| 0 <= j < |rest| && rest[j].text == t;
        assert options[j + 1].text == t;
      }
      if exists j :: 0 <= j < |options| && options[j].text == t {
        var j :| 0 <= j < |options| && options[j].text == t;
        if j == 0 {
          assert t in Copies(options[0]);
        } else {
          assert rest[j - 1].text == t;
        }
      }
    }
  }

  /**
   The pool is empty exactly when the list is, and whenever deciding is
   offered (more than one entry) every index the draw can give is valid.
   */
  lemma PoolNonEmpty(options: seq<Option>)
    ensures |Pool(options)| == 0 <==> |options| == 0
    ensures |options| > 1 ==> |Pool(options)| >= 2
  {
    PoolLength(options);
  }

  /**
   Two entries whose texts no other entry shares, one boosted and one not:
   the boosted text weighs exactly twice the other, so by `PoolCount` it has
   twice the pool slots.
   */
  lemma BoostDoubles(options: seq<Option>, b: nat, u: nat)
    requires b < |options| && u < |options|
    requires options[b].boosted && !options[u].boosted
    requires forall j :: 0 <= j < |options| && j != b ==> options[j].text != options[b].text
    requires forall j :: 0 <= j < |options| && j != u ==> options[j].text != options[u].text
    ensures TextWeight(options, options[b].text) == 2 * TextWeight(options, options[u].text)
  {
    SoleCarrierWeight(options, b);
    SoleCarrierWeight(options, u);
  }

  /** When entry `i` alone carries its text, that text's weight is the entry's weight. */
  lemma {:induction false} SoleCarrierWeight(options: seq<Option>, i: nat)
    requires i < |options|
    requires forall j :: 0 <= j < |options| && j != i ==> options[j].text != options[i].text
    ensures TextWeight(options, options[i].text) == Weight(options[i])
    decreases |options|
  {
    var rest := options[1..];
    if i == 0 {
      NoCarrierWeight(rest, options[0].text);
    } else {
      SoleCarrierWeight(rest, i - 1);
    }
  }

  /** A text that no entry carries has weight 0. */
  lemma {:induction false} NoCarrierWeight(options: seq<Option>, t: string)
    requires forall j :: 0 <= j < |options| ==> options[j].text != t
    ensures TextWeight(options, t) == 0
    decreases |options|
  {
    if |options| > 0 {
      NoCarrierWeight(options[1..], t);
    }
  }

  /**
   Toggling entry `i` moves its text's weight by one, up when it becomes
   boosted and down when it stops being boosted; every other text keeps its
   weight, and the pool grows or shrinks by one slot.
   */
  lemma ToggleBoostWeight(options: seq<Option>, i: nat, t: string)
    requires i < |options|
    ensures TextWeight(ToggleBoost(options, i), t)
            == TextWeight(options, t)
               + (if t != options[i].text then 0 else if options[i].boosted then -1 else 1)
    ensures |Pool(ToggleBoost(options, i))|
            == |Pool(options)| + (if options[i].boosted then -1 else 1)
  {
    var a, x, b := options[..i], options[i], options[i + 1..];
    ToggleBoostSplice(options, i);
    assert options == a + [x] + b;
    TextWeightAppend(a + [x], b, t);
    TextWeightAppend(a, [x], t);
    TextWeightAppend(a + [Flip(x)], b, t);
    TextWeightAppend(a, [Flip(x)], t);
    SingleWeight(x, t);
    SingleWeight(Flip(x), t);
    PoolAppend(a + [x], b);
    PoolAppend(a, [x]);
    PoolAppend(a + [Flip(x)], b);
    PoolAppend(a, [Flip(x)]);
  }

  /**
   Removing entry `i` takes exactly its weight off its text and leaves every
   other text's weight as it was.
   */
  lemma RemoveAtWeight(options: seq<Option>, i: nat, t: string)
    requires i < |options|
    ensures TextWeight(RemoveAt(options, i), t)
            == TextWeight(options, t) - (if t == options[i].text then Weight(options[i]) else 0)
  {
    var a, x, b := options[..i], options[i], options[i + 1..];
    assert options == a + [x] + b;
    assert RemoveAt(options, i) == a + b;
    TextWeightAppend(a + [x], b, t);
    TextWeightAppend(a, [x], t);
    TextWeightAppend(a, b, t);
    SingleWeight(x, t);
  }

  /** Where each entry of the cut list sat before the cut. */
  lemma CutIndex(options: seq<Option>, i: nat, j: nat)
    requires i < |options| && j < |options| - 1
    ensures (options[..i] + options[i + 1..])[j] == (if j < i then options[j] else options[j + 1])
  {
  }

  /** If the cut-out text is still in the pool, another entry carries it. */
  lemma CutPickableOnlyIfShared(options: seq<Option>, i: nat)
    requires i < |options|
    ensures options[i].text in Pool(options[..i] + options[i + 1..])
            ==> exists j :: 0 <= j < |options| && j != i && options[j].text == options[i].text
  {
    var t := options[i].text;
    var r := options[..i] + options[i + 1..];
    InPoolIff(r, t);
    if t in Pool(r) {
      var j :| 0 <= j < |r| && r[j].text == t;
      CutIndex(options, i, j);
      var k := if j < i then j else j + 1;
      assert k != i && options[k].text == t;
    }
  }

  /** If another entry carries the cut-out text, it is still in the pool. */
  lemma CutPickableIfShared(options: seq<Option>, i: nat)
    requires i < |options|
    ensures (exists j :: 0 <= j < |options| && j != i && options[j].text == options[i].text)
            ==> options[i].text in Pool(options[..i] + options[i + 1..])
  {
    var t := options[i].text;
    if exists j :: 0 <= j < |options| && j != i && options[j].text == t {
      var j :| 0 <= j < |options| && j != i && options[j].text == t;
      var k := if j < i then j else j - 1;
      CutIndex(options, i, k);
      assert (options[..i] + options[i + 1..])[k].text == t;
      InPoolIff(options[..i] + options[i + 1..], t);
    }
  }

  /**
   With entry `i` cut out, its text stays in the pool exactly when some
   other entry carries the same text.
   */
  lemma CutPickable(options: seq<Option>, i: nat)
    requires i < |options|
    ensures options[i].text in Pool(options[..i] + options[i + 1..])
            <==> exists j :: 0 <= j < |options| && j != i && options[j].text == options[i].text
  {
    CutPickableOnlyIfShared(options, i);
    CutPickableIfShared(options, i);
  }

  /**
   After removing entry `i`, its text can still be picked exactly when some
   other entry carries the same text.
   */
  lemma RemoveAtUnpickable(options: seq<Option>, i: nat)
    requires i < |options|
    ensures options[i].text in Pool(RemoveAt(options, i))
            <==> exists j :: 0 <= j < |options| && j != i && options[j].text == options[i].text
  {
    assert RemoveAt(options, i) == options[..i] + options[i + 1..];
    CutPickable(options, i);
  }

  /**
   An accepted add puts the trimmed text into the pool once, after the
   slots the list already had; a rejected add leaves the pool alone.
   */
  lemma AddOptionPool(options: seq<Option>, input: string, id: string)
    ensures Trim(input) != [] ==>
              Pool(AddOption(options, input, id).options) == Pool(options) + [Trim(input)]
    ensures Trim(input) == [] ==> Pool(AddOption(options, input, id).options) == Pool(options)
  {
    var r := AddOption(options, input, id);
    if Trim(input) != [] {
      var added := Option(Trim(input), false, id);
      assert r.options == options + [added];
      PoolAppend(options, [added]);
      SingleWeight(added, "");
    }
  }
}
