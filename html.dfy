// The parsed HTML the scraper walks, and the few BeautifulSoup queries it
// makes on it: `find` (first match in document order), `find_next_sibling`,
// `Tag.get`, truthiness, and `get_text(strip=True)`.

module Html {
  import opened Wrappers
  import opened PyStr

  /** A node of the parse tree: a string (`NavigableString`) or a tag with
      its attributes, its `class` values (BeautifulSoup keeps `class` as a
      list) and its children in document order. */
  datatype Node =
    | Text(s: string)
    | Element(name: string, attrs: map<string, string>, classes: seq<string>, children: seq<Node>)

  /** `tag.get(key)`; a string has no attributes. */
  function Attr(n: Node, key: string): Option<string>
  {
    if n.Element? && key in n.attrs then Some(n.attrs[key]) else None
  }

  /** `node.name == name`: a string's name is `None`, which equals no name. */
  predicate IsTag(n: Node, name: string)
  {
    n.Element? && n.name == name
  }

  /** Python truthiness of a node: a tag is always true, a string is true
      unless it is empty. */
  predicate Truthy(n: Node)
  {
    n.Element? || |n.s| > 0
  }

  /** The arguments of `find(name, attr=value, ..., class_=c)`. */
  datatype Selector = Selector(name: string, attrs: map<string, string>, cls: Option<string>)

  predicate Matches(n: Node, sel: Selector)
  {
    n.Element? && n.name == sel.name &&
    (forall k :: k in sel.attrs ==> k in n.attrs && n.attrs[k] == sel.attrs[k]) &&
    (sel.cls.Some? ==> sel.cls.value in n.classes)
  }

  /** Every node of a forest in document order: each node, then its
      descendants, then its following siblings. */
  function Preorder(f: seq<Node>): seq<Node>
    decreases f
  {
    if |f| == 0 then []
    else [f[0]] + (if f[0].Element? then Preorder(f[0].children) else []) + Preorder(f[1..])
  }

  /** Where `find` stopped: the sibling list that holds the match (the
      children of its parent) and its index there. */
  datatype Hit = Hit(siblings: seq<Node>, index: nat)
  {
    predicate Valid() { index < |siblings| }
  }

  /** One step of `Preorder` over a suffix of a sibling list. */
  lemma PreorderUnfold(f: seq<Node>, i: nat)
    requires i < |f|
    ensures Preorder(f[i..]) ==
            [f[i]] + (if f[i].Element? then Preorder(f[i].children) else []) + Preorder(f[i + 1..])
  {
    assert f[i..][0] == f[i];
    assert f[i..][1..] == f[i + 1..];
  }

  /** Where each node of `Preorder(f[i..])` sits: the sibling list holding
      it and its index there, in the same order. */
  function Locations(f: seq<Node>, i: nat): seq<Hit>
    requires i <= |f|
    decreases f, |f| - i
  {
    if i == |f| then []
    else [Hit(f, i)] + (if f[i].Element? then Locations(f[i].children, 0) else []) + Locations(f, i + 1)
  }

  /** `Locations` runs alongside `Preorder`: the same length, and each
      location holds the node at the same position of the traversal. */
  lemma {:induction false} LocationsFit(f: seq<Node>, i: nat)
    requires i <= |f|
    ensures |Locations(f, i)| == |Preorder(f[i..])|
    ensures forall k :: 0 <= k < |Locations(f, i)| ==>
              Locations(f, i)[k].Valid() && Locations(f, i)[k].siblings[Locations(f, i)[k].index] == Preorder(f[i..])[k]
    decreases f, |f| - i
  {
    if i < |f| {
      var lk := if f[i].Element? then Locations(f[i].children, 0) else [];
      var pk := if f[i].Element? then Preorder(f[i].children) else [];
      assert Fits(lk, pk) by {
        if f[i].Element? {
          LocationsFit(f[i].children, 0);
          assert f[i].children[0..] == f[i].children;
        }
      }
      assert Fits(Locations(f, i + 1), Preorder(f[i + 1..])) by {
        LocationsFit(f, i + 1);
      }
      assert Fits([Hit(f, i)], [f[i]]);
      FitsConcat([Hit(f, i)], [f[i]], lk, pk);
      FitsConcat([Hit(f, i)] + lk, [f[i]] + pk, Locations(f, i + 1), Preorder(f[i + 1..]));
      assert Locations(f, i) == [Hit(f, i)] + lk + Locations(f, i + 1) by {
        LocationsUnfold(f, i);
      }
      assert Preorder(f[i..]) == [f[i]] + pk + Preorder(f[i + 1..]) by {
        PreorderUnfold(f, i);
      }
      assert Fits(Locations(f, i), Preorder(f[i..]));
    }
  }

  /** Each location of `ls` is valid and holds the node at the same position of `ps`. */
  predicate Fits(ls: seq<Hit>, ps: seq<Node>)
  {
    |ls| == |ps| &&
    forall k :: 0 <= k < |ls| ==> ls[k].Valid() && ls[k].siblings[ls[k].index] == ps[k]
  }

  lemma FitsConcat(l1: seq<Hit>, p1: seq<Node>, l2: seq<Hit>, p2: seq<Node>)
    requires Fits(l1, p1) && Fits(l2, p2)
    ensures Fits(l1 + l2, p1 + p2)
  {
    forall k | 0 <= k < |l1 + l2|
      ensures (l1 + l2)[k].Valid() && (l1 + l2)[k].siblings[(l1 + l2)[k].index] == (p1 + p2)[k]
    {
      if k < |l1| {
        assert (l1 + l2)[k] == l1[k] && (p1 + p2)[k] == p1[k];
      } else {
        assert (l1 + l2)[k] == l2[k - |l1|] && (p1 + p2)[k] == p2[k - |l1|];
      }
    }
  }

  /** `find` over `f[i..]`, descending into each node before moving on. */
  function FindFrom(f: seq<Node>, i: nat, sel: Selector): (r: Option<Hit>)
    requires i <= |f|
    ensures r.None? ==> forall n :: n in Preorder(f[i..]) ==> !Matches(n, sel)
    ensures r.Some? ==> r.value.Valid() && Matches(r.value.siblings[r.value.index], sel)
    decreases f, |f| - i
  {
    if i == |f| then None
    else if Matches(f[i], sel) then Some(Hit(f, i))
    else
      var inner := if f[i].Element? then FindFrom(f[i].children, 0, sel) else None;
      if inner.Some? then inner
      else
        PreorderUnfold(f, i);
        FindFrom(f, i + 1, sel)
  }

  /** The hit lies in the tree: its sibling list is the top level of the
      fragment or the children of one of the fragment's nodes. */
  lemma {:induction false} FindInTree(f: seq<Node>, i: nat, sel: Selector)
    requires i <= |f| && FindFrom(f, i, sel).Some?
    ensures var h := FindFrom(f, i, sel).value;
            h.siblings == f || exists m :: m in Preorder(f[i..]) && m.Element? && m.children == h.siblings
    decreases f, |f| - i
  {
    var h := FindFrom(f, i, sel).value;
    PreorderUnfold(f, i);
    if !Matches(f[i], sel) {
      if f[i].Element? && FindFrom(f[i].children, 0, sel).Some? {
        FindInTree(f[i].children, 0, sel);
        assert f[i].children[0..] == f[i].children;
        assert f[i] in Preorder(f[i..]);
      } else {
        FindInTree(f, i + 1, sel);
      }
    }
  }

  /** `find(...)` on a parsed fragment whose top-level nodes are `f`. */
  function Find(f: seq<Node>, sel: Selector): Option<Hit>
  {
    FindFrom(f, 0, sel)
  }

  /** Position `k` holds the first node of `p` that matches `sel`. */
  predicate FirstMatchAt(p: seq<Node>, k: nat, sel: Selector)
  {
    k < |p| && Matches(p[k], sel) && forall j :: 0 <= j < k ==> !Matches(p[j], sel)
  }

  lemma FirstMatchPrefix(a: seq<Node>, b: seq<Node>, k: nat, sel: Selector)
    requires FirstMatchAt(a, k, sel)
    ensures FirstMatchAt(a + b, k, sel)
  {
    assert forall j :: 0 <= j <= k ==> (a + b)[j] == a[j];
  }

  lemma FirstMatchShift(a: seq<Node>, b: seq<Node>, k: nat, sel: Selector)
    requires forall x :: x in a ==> !Matches(x, sel)
    requires FirstMatchAt(b, k, sel)
    ensures FirstMatchAt(a + b, |a| + k, sel)
  {
    forall j | 0 <= j <= |a| + k ensures (a + b)[j] == if j < |a| then a[j] else b[j - |a|] {
    }
    forall j | 0 <= j < |a| ensures !Matches((a + b)[j], sel) {
      assert (a + b)[j] in a;
    }
  }

  lemma FirstMatchInside(a: seq<Node>, b: seq<Node>, c: seq<Node>, k: nat, sel: Selector)
    requires forall x :: x in a ==> !Matches(x, sel)
    requires FirstMatchAt(b, k, sel)
    ensures FirstMatchAt(a + b + c, |a| + k, sel)
  {
    FirstMatchPrefix(b, c, k, sel);
    FirstMatchShift(a, b + c, k, sel);
    assert a + b + c == a + (b + c);
  }

  /** One step of `Locations`, alongside `PreorderUnfold`. */
  lemma LocationsUnfold(f: seq<Node>, i: nat)
    requires i < |f|
    ensures Locations(f, i) ==
            [Hit(f, i)] + (if f[i].Element? then Locations(f[i].children, 0) else []) + Locations(f, i + 1)
  {
  }

  /** One step of `find`: a match here, else a hit among the children, else
      the search moves on to the next sibling. */
  lemma FindFromStep(f: seq<Node>, i: nat, sel: Selector)
    requires i < |f|
    ensures Matches(f[i], sel) ==> FindFrom(f, i, sel) == Some(Hit(f, i))
    ensures !Matches(f[i], sel) && f[i].Element? && FindFrom(f[i].children, 0, sel).Some? ==>
              FindFrom(f, i, sel) == FindFrom(f[i].children, 0, sel)
    ensures !Matches(f[i], sel) && !(f[i].Element? && FindFrom(f[i].children, 0, sel).Some?) ==>
              FindFrom(f, i, sel) == FindFrom(f, i + 1, sel)
  {
  }

  /** A first match inside the children of `f[i]`, when `f[i]` itself does
      not match, is a first match of the traversal from `f[i]`. */
  lemma FirstMatchInChildren(f: seq<Node>, i: nat, sel: Selector, k: nat) returns (j: nat)
    requires i < |f| && f[i].Element? && !Matches(f[i], sel)
    requires FirstMatchAt(Preorder(f[i].children), k, sel) && k < |Locations(f[i].children, 0)|
    ensures FirstMatchAt(Preorder(f[i..]), j, sel)
    ensures j < |Locations(f, i)| && Locations(f, i)[j] == Locations(f[i].children, 0)[k]
  {
    PreorderUnfold(f, i);
    LocationsUnfold(f, i);
    FirstMatchInside([f[i]], Preorder(f[i].children), Preorder(f[i + 1..]), k, sel);
    j := 1 + k;
  }

  /** A forest has one location per node of its traversal. */
  lemma LocationsCount(f: seq<Node>)
    ensures |Locations(f, 0)| == |Preorder(f)|
  {
    LocationsFit(f, 0);
    assert f[0..] == f;
  }

  /** A first match among the following siblings, when neither `f[i]` nor
      its descendants match, is a first match of the traversal from `f[i]`. */
  lemma FirstMatchAfterNode(f: seq<Node>, i: nat, sel: Selector, k: nat) returns (j: nat)
    requires i < |f| && !Matches(f[i], sel)
    requires f[i].Element? ==> forall n :: n in Preorder(f[i].children) ==> !Matches(n, sel)
    requires FirstMatchAt(Preorder(f[i + 1..]), k, sel) && k < |Locations(f, i + 1)|
    ensures FirstMatchAt(Preorder(f[i..]), j, sel)
    ensures j < |Locations(f, i)| && Locations(f, i)[j] == Locations(f, i + 1)[k]
  {
    var kids := if f[i].Element? then Preorder(f[i].children) else [];
    j := 1 + |kids| + k;
    assert FirstMatchAt(Preorder(f[i..]), j, sel) by {
      PreorderSkipNode(f, i, sel, k, kids);
    }
    assert j < |Locations(f, i)| && Locations(f, i)[j] == Locations(f, i + 1)[k] by {
      LocationsSkipNode(f, i, k, kids);
    }
  }

  lemma PreorderSkipNode(f: seq<Node>, i: nat, sel: Selector, k: nat, kids: seq<Node>)
    requires i < |f| && !Matches(f[i], sel)
    requires kids == if f[i].Element? then Preorder(f[i].children) else []
    requires forall n :: n in kids ==> !Matches(n, sel)
    requires FirstMatchAt(Preorder(f[i + 1..]), k, sel)
    ensures FirstMatchAt(Preorder(f[i..]), 1 + |kids| + k, sel)
  {
    PreorderUnfold(f, i);
    assert forall x :: x in [f[i]] + kids ==> !Matches(x, sel);
    FirstMatchShift([f[i]] + kids, Preorder(f[i + 1..]), k, sel);
  }

  lemma LocationsSkipNode(f: seq<Node>, i: nat, k: nat, kids: seq<Node>)
    requires i < |f| && k < |Locations(f, i + 1)|
    requires kids == if f[i].Element? then Preorder(f[i].children) else []
    ensures 1 + |kids| + k < |Locations(f, i)|
    ensures Locations(f, i)[1 + |kids| + k] == Locations(f, i + 1)[k]
  {
    var lk := if f[i].Element? then Locations(f[i].children, 0) else [];
    if f[i].Element? {
      LocationsCount(f[i].children);
    }
    LocationsUnfold(f, i);
    var head := [Hit(f, i)] + lk;
    assert |head| == 1 + |kids|;
    assert Locations(f, i) == head + Locations(f, i + 1);
  }

  /** The position of the traversal where `find` stops. */
  lemma {:induction false} FindPosition(f: seq<Node>, i: nat, sel: Selector) returns (k: nat)
    requires i <= |f| && FindFrom(f, i, sel).Some?
    ensures FirstMatchAt(Preorder(f[i..]), k, sel)
    ensures k < |Locations(f, i)| && Locations(f, i)[k] == FindFrom(f, i, sel).value
    decreases f, |f| - i
  {
    FindFromStep(f, i, sel);
    if Matches(f[i], sel) {
      k := 0;
      PreorderUnfold(f, i);
      LocationsUnfold(f, i);
    } else if f[i].Element? && FindFrom(f[i].children, 0, sel).Some? {
      assert f[i].children[0..] == f[i].children;
      var k' := FindPosition(f[i].children, 0, sel);
      k := FirstMatchInChildren(f, i, sel, k');
    } else {
      if f[i].Element? {
        assert f[i].children[0..] == f[i].children;
      }
      var k' := FindPosition(f, i + 1, sel);
      k := FirstMatchAfterNode(f, i, sel, k');
    }
  }

  /** `find` stops at the first match in document order: its hit is the
      location of that position of the traversal, and holds that node. */
  lemma FindIsFirst(f: seq<Node>, i: nat, sel: Selector)
    requires i <= |f| && FindFrom(f, i, sel).Some?
    ensures var h := FindFrom(f, i, sel).value;
            exists k: nat :: FirstMatchAt(Preorder(f[i..]), k, sel) && k < |Locations(f, i)| &&
                             Locations(f, i)[k] == h && h.siblings[h.index] == Preorder(f[i..])[k]
  {
    var k := FindPosition(f, i, sel);
    LocationsFit(f, i);
  }

  /** There is only one first match. */
  lemma FirstMatchUnique(p: seq<Node>, k: nat, k': nat, sel: Selector)
    requires FirstMatchAt(p, k, sel) && FirstMatchAt(p, k', sel)
    ensures k == k'
  {
  }

  /** Conversely, whenever position `k` of the traversal holds the first
      match, `find` returns the location of that position. */
  lemma FindAtFirstMatch(f: seq<Node>, sel: Selector)
    ensures Find(f, sel).None? <==> forall n :: n in Preorder(f) ==> !Matches(n, sel)
    ensures forall k: nat :: FirstMatchAt(Preorder(f), k, sel) ==>
              k < |Locations(f, 0)| && Find(f, sel) == Some(Locations(f, 0)[k])
  {
    assert f[0..] == f;
    LocationsFit(f, 0);
    if Find(f, sel).Some? {
      FindIsFirst(f, 0, sel);
      var k: nat :| FirstMatchAt(Preorder(f), k, sel);
      assert Preorder(f)[k] in Preorder(f);
    }
    forall k: nat | FirstMatchAt(Preorder(f), k, sel)
      ensures k < |Locations(f, 0)| && Find(f, sel) == Some(Locations(f, 0)[k])
    {
      assert Preorder(f)[k] in Preorder(f);
      FindIsFirst(f, 0, sel);
      var k': nat :| FirstMatchAt(Preorder(f), k', sel) && k' < |Locations(f, 0)| &&
                     Locations(f, 0)[k'] == Find(f, sel).value;
      FirstMatchUnique(Preorder(f), k, k', sel);
    }
  }

  /** `find_next_sibling(name, attr=value)`: the first tag at or after
      index `i` of `sibs` that matches. */
  function NextSibling(sibs: seq<Node>, i: nat, sel: Selector): (r: Option<nat>)
    requires i <= |sibs|
    ensures r.Some? ==> i <= r.value < |sibs| && Matches(sibs[r.value], sel) &&
                        forall j :: i <= j < r.value ==> !Matches(sibs[j], sel)
    ensures r.None? ==> forall j :: i <= j < |sibs| ==> !Matches(sibs[j], sel)
    decreases |sibs| - i
  {
    if i == |sibs| then None
    else if Matches(sibs[i], sel) then Some(i)
    else NextSibling(sibs, i + 1, sel)
  }

  /** The strings of a traversal, each stripped, concatenated; tags add
      nothing themselves. */
  function TextsOf(p: seq<Node>): string
  {
    if |p| == 0 then "" else (if p[0].Text? then Strip(p[0].s) else "") + TextsOf(p[1..])
  }

  lemma {:induction false} TextsOfConcat(a: seq<Node>, b: seq<Node>)
    ensures TextsOf(a + b) == TextsOf(a) + TextsOf(b)
  {
    if |a| > 0 {
      assert (a + b)[1..] == a[1..] + b;
      TextsOfConcat(a[1..], b);
    } else {
      assert a + b == b;
    }
  }

  /** `get_text(strip=True)` over a forest: the strings of its document-order
      traversal, each stripped, joined with no separator (strings that strip
      to nothing add nothing). */
  function StrippedText(f: seq<Node>): (r: string)
    ensures r == TextsOf(Preorder(f))
    decreases f
  {
    if |f| == 0 then ""
    else
      TextsOfStep(f);
      var head := if f[0].Text? then Strip(f[0].s) else StrippedText(f[0].children);
      head + StrippedText(f[1..])
  }

  /** The texts of a traversal: those of the first node, of its subtree,
      then of the following siblings. */
  lemma TextsOfStep(f: seq<Node>)
    requires |f| > 0
    ensures TextsOf(Preorder(f)) ==
            (if f[0].Text? then Strip(f[0].s) else TextsOf(Preorder(f[0].children))) +
            TextsOf(Preorder(f[1..]))
  {
    var kids := if f[0].Element? then Preorder(f[0].children) else [];
    assert Preorder(f) == ([f[0]] + kids) + Preorder(f[1..]);
    TextsOfConcat([f[0]] + kids, Preorder(f[1..]));
    TextsOfConcat([f[0]], kids);
    assert TextsOf([f[0]]) == (if f[0].Text? then Strip(f[0].s) else "") by {
      assert [f[0]][1..] == [];
    }
    if f[0].Text? {
      assert TextsOf(kids) == "";
    } else {
      assert TextsOf([f[0]]) + TextsOf(kids) == TextsOf(kids);
    }
  }

  /** The text of consecutive forests is the concatenation of their texts. */
  lemma StrippedTextConcat(a: seq<Node>, b: seq<Node>)
    ensures StrippedText(a + b) == StrippedText(a) + StrippedText(b)
  {
    PreorderConcat(a, b);
    TextsOfConcat(Preorder(a), Preorder(b));
  }

  lemma {:induction false} PreorderConcat(a: seq<Node>, b: seq<Node>)
    ensures Preorder(a + b) == Preorder(a) + Preorder(b)
  {
    if |a| > 0 {
      assert (a + b)[0] == a[0];
      assert (a + b)[1..] == a[1..] + b;
      PreorderConcat(a[1..], b);
    } else {
      assert a + b == b;
    }
  }
}
