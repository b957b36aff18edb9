/** The parsed HTML tree the scraper walks, and the handful of BeautifulSoup
    queries it uses: `find`, `find_all`, `find_next_sibling`, `decompose` and
    `get_text(strip=True)`. A document is an element named "[document]"
    whose children are the top-level nodes. */
module Html {
  import opened Wrappers
  import opened Strings

  /** A node is either a run of text or an element. The `class` attribute is
      kept apart from the other attributes because the parser splits it into a
      list of class names; every other attribute is a single string. */
  datatype Node =
    | Text(content: string)
    | Element(name: string, classes: seq<string>, attrs: map<string, string>, children: seq<Node>)

  function Kids(n: Node): seq<Node> {
    if n.Element? then n.children else []
  }

  /** The filter of `find(name, class_=cls)`: the tag name and, if given, one
      class name the element must carry among its classes. */
  datatype Selector = Selector(name: string, cls: Option<string>)

  predicate Matches(n: Node, sel: Selector) {
    n.Element? && n.name == sel.name && (sel.cls.None? || sel.cls.value in n.classes)
  }

  // ---------------------------------------------------------------------
  // Queries

  /** Every node of a forest, each one before the nodes below it and before
      its later siblings: document order. */
  function Preorder(ns: seq<Node>): seq<Node>
    decreases ns
  {
    if ns == [] then []
    else [ns[0]] + (if ns[0].Element? then Preorder(ns[0].children) else []) + Preorder(ns[1..])
  }

  /** The nodes of `xs` that match `sel`, in the order of `xs`. */
  function Filter(xs: seq<Node>, sel: Selector): seq<Node> {
    if xs == [] then []
    else (if Matches(xs[0], sel) then [xs[0]] else []) + Filter(xs[1..], sel)
  }

  /** `find_all(sel)` over a forest: the matching elements of the forest and
      nothing else. */
  function FindAll(ns: seq<Node>, sel: Selector): (r: seq<Node>)
    ensures forall m :: m in r ==> Matches(m, sel)
    ensures forall m :: m in r <==> m in Preorder(ns) && Matches(m, sel)
    decreases ns
  {
    if ns == [] then []
    else
      (if Matches(ns[0], sel) then [ns[0]] else []) +
      (if ns[0].Element? then FindAll(ns[0].children, sel) else []) +
      FindAll(ns[1..], sel)
  }

  lemma {:induction false} FilterAppend(xs: seq<Node>, ys: seq<Node>, sel: Selector)
    ensures Filter(xs + ys, sel) == Filter(xs, sel) + Filter(ys, sel)
    decreases xs
  {
    if xs == [] {
      assert xs + ys == ys;
    } else {
      assert (xs + ys)[0] == xs[0];
      assert (xs + ys)[1..] == xs[1..] + ys;
      FilterAppend(xs[1..], ys, sel);
    }
  }

  /** `find_all` lists the matching nodes in document order: it is the
      document-order listing of the forest with the other nodes left out. */
  lemma {:induction false} FindAllInDocumentOrder(ns: seq<Node>, sel: Selector)
    ensures FindAll(ns, sel) == Filter(Preorder(ns), sel)
    decreases ns
  {
    if ns != [] {
      var below := if ns[0].Element? then Preorder(ns[0].children) else [];
      if ns[0].Element? {
        FindAllInDocumentOrder(ns[0].children, sel);
      }
      FindAllInDocumentOrder(ns[1..], sel);
      FilterAppend([ns[0]] + below, Preorder(ns[1..]), sel);
      FilterAppend([ns[0]], below, sel);
      assert Filter([ns[0]], sel) == if Matches(ns[0], sel) then [ns[0]] else [];
    }
  }

  /** The head of a filtered list is the first node of the list that
      matches. */
  lemma {:induction false} FilterHead(xs: seq<Node>, sel: Selector)
    requires Filter(xs, sel) != []
    ensures exists k :: 0 <= k < |xs| && xs[k] == Filter(xs, sel)[0] && Matches(xs[k], sel) &&
                        forall j :: 0 <= j < k ==> !Matches(xs[j], sel)
    decreases xs
  {
    if !Matches(xs[0], sel) {
      FilterHead(xs[1..], sel);
      var k :| 0 <= k < |xs[1..]| && xs[1..][k] == Filter(xs[1..], sel)[0] && Matches(xs[1..][k], sel) &&
               forall j :: 0 <= j < k ==> !Matches(xs[1..][j], sel);
      assert xs[k + 1] == xs[1..][k];
      assert forall j :: 1 <= j < k + 1 ==> xs[j] == xs[1..][j - 1];
    } else {
      assert xs[0] == Filter(xs, sel)[0];
    }
  }

  /** `find(sel)`: nothing exactly when no node of the forest matches,
      otherwise a matching node of the forest. */
  function FindFirst(ns: seq<Node>, sel: Selector): (r: Option<Node>)
    ensures r.None? <==> forall m :: m in Preorder(ns) ==> !Matches(m, sel)
    ensures r.Some? ==> r.value in Preorder(ns) && Matches(r.value, sel)
  {
    var all := FindAll(ns, sel);
    if all == [] then None else assert all[0] in all; Some(all[0])
  }

  /** `find(sel)` returns the earliest matching node in document order. */
  lemma FindFirstIsEarliest(ns: seq<Node>, sel: Selector)
    requires FindFirst(ns, sel).Some?
    ensures var order := Preorder(ns);
      exists k :: 0 <= k < |order| && order[k] == FindFirst(ns, sel).value &&
                  forall j :: 0 <= j < k ==> !Matches(order[j], sel)
  {
    FindAllInDocumentOrder(ns, sel);
    FilterHead(Preorder(ns), sel);
  }

  /** The first node of the list itself (no descent) that matches. */
  function FirstAmong(ns: seq<Node>, sel: Selector): (r: Option<Node>)
    ensures r.Some? ==> r.value in ns && Matches(r.value, sel)
    ensures r.None? <==> forall i :: 0 <= i < |ns| ==> !Matches(ns[i], sel)
  {
    if ns == [] then None
    else if Matches(ns[0], sel) then Some(ns[0])
    else
      assert forall i :: 1 <= i < |ns| ==> ns[i] == ns[1..][i - 1];
      FirstAmong(ns[1..], sel)
  }

  /** The node `FirstAmong` returns comes before every other match in the
      list. */
  lemma {:induction false} FirstAmongIsEarliest(ns: seq<Node>, sel: Selector)
    requires FirstAmong(ns, sel).Some?
    ensures exists k :: 0 <= k < |ns| && ns[k] == FirstAmong(ns, sel).value &&
                        forall j :: 0 <= j < k ==> !Matches(ns[j], sel)
    decreases ns
  {
    if !Matches(ns[0], sel) {
      FirstAmongIsEarliest(ns[1..], sel);
      var k :| 0 <= k < |ns[1..]| && ns[1..][k] == FirstAmong(ns[1..], sel).value &&
               forall j :: 0 <= j < k ==> !Matches(ns[1..][j], sel);
      assert ns[k + 1] == ns[1..][k];
      assert forall j :: 1 <= j < k + 1 ==> ns[j] == ns[1..][j - 1];
    } else {
      assert ns[0] == FirstAmong(ns, sel).value;
    }
  }

  /** `anchor.find_next_sibling(sel)` where `anchor` is the element
      `FindFirst(ns, a)` returns: the first later sibling of the anchor that
      matches `sel`; nothing when there is no anchor. */
  function FindNextSibling(ns: seq<Node>, a: Selector, sel: Selector): Option<Node>
    decreases ns
  {
    if ns == [] then None
    else if Matches(ns[0], a) then FirstAmong(ns[1..], sel)
    else if ns[0].Element? && FindAll(ns[0].children, a) != [] then FindNextSibling(ns[0].children, a, sel)
    else FindNextSibling(ns[1..], a, sel)
  }

  /** The anchor that `FindNextSibling` starts from is the one `FindFirst` finds. */
  lemma {:induction false} NextSiblingNeedsAnchor(ns: seq<Node>, a: Selector, sel: Selector)
    requires FindFirst(ns, a).None?
    ensures FindNextSibling(ns, a, sel).None?
    decreases ns
  {
    if ns != [] {
      NextSiblingNeedsAnchor(ns[1..], a, sel);
    }
  }

  /** An element of the list that matches is reported by `FindAll`. */
  lemma {:induction false} TopLevelMatchIsFound(ns: seq<Node>, sel: Selector, m: Node)
    requires m in ns && Matches(m, sel)
    ensures FindAll(ns, sel) != []
    decreases ns
  {
    if ns[0] != m {
      TopLevelMatchIsFound(ns[1..], sel, m);
    }
  }

  /** A sibling of a descendant is itself a descendant: when nothing in the
      forest matches `sel`, no following sibling of any anchor matches either. */
  lemma {:induction false} NoMatchNoSibling(ns: seq<Node>, a: Selector, sel: Selector)
    requires FindAll(ns, sel) == []
    ensures FindNextSibling(ns, a, sel).None?
    decreases ns
  {
    if ns != [] {
      if Matches(ns[0], a) {
        var r := FirstAmong(ns[1..], sel);
        if r.Some? {
          TopLevelMatchIsFound(ns[1..], sel, r.value);
        }
      } else if FindAll(Kids(ns[0]), a) != [] {
        NoMatchNoSibling(Kids(ns[0]), a, sel);
      } else {
        NoMatchNoSibling(ns[1..], a, sel);
      }
    }
  }

  /** When nothing in the forest matches `sel`, nothing below any element that
      `find_all` returns matches it either. */
  lemma {:induction false} NoMatchBelowFound(ns: seq<Node>, t: Selector, sel: Selector, x: Node)
    requires FindAll(ns, sel) == [] && x in FindAll(ns, t)
    ensures FindAll(Kids(x), sel) == []
    decreases ns
  {
    var here := if Matches(ns[0], t) then [ns[0]] else [];
    assert FindAll(ns, t) == here + FindAll(Kids(ns[0]), t) + FindAll(ns[1..], t);
    if x in FindAll(Kids(ns[0]), t) {
      NoMatchBelowFound(Kids(ns[0]), t, sel, x);
    } else if x in FindAll(ns[1..], t) {
      NoMatchBelowFound(ns[1..], t, sel, x);
    }
  }

  // ---------------------------------------------------------------------
  // Text

  /** The text nodes of a forest, in document order. */
  function Texts(ns: seq<Node>): seq<string>
    decreases ns
  {
    if ns == [] then []
    else (if ns[0].Text? then [ns[0].content] else Texts(ns[0].children)) + Texts(ns[1..])
  }

  lemma {:induction false} TextsAppend(a: seq<Node>, b: seq<Node>)
    ensures Texts(a + b) == Texts(a) + Texts(b)
    decreases a
  {
    if a == [] {
      assert a + b == b;
    } else {
      assert (a + b)[0] == a[0];
      assert (a + b)[1..] == a[1..] + b;
      TextsAppend(a[1..], b);
    }
  }

  /** Each piece stripped, the pieces joined with no separator. */
  function JoinStripped(ts: seq<string>): string {
    if ts == [] then "" else Strip(ts[0]) + JoinStripped(ts[1..])
  }

  lemma {:induction false} JoinStrippedAppend(a: seq<string>, b: seq<string>)
    ensures JoinStripped(a + b) == JoinStripped(a) + JoinStripped(b)
  {
    if a == [] {
      assert a + b == b;
    } else {
      assert (a + b)[0] == a[0];
      assert (a + b)[1..] == a[1..] + b;
      JoinStrippedAppend(a[1..], b);
      var head, rest, tail := Strip(a[0]), JoinStripped(a[1..]), JoinStripped(b);
      assert JoinStripped(a + b) == head + (rest + tail);
      assert head + (rest + tail) == (head + rest) + tail;
    }
  }

  /** `get_text(strip=True)` of an element: its text nodes stripped and joined. */
  function GetText(n: Node): string {
    JoinStripped(Texts(Kids(n)))
  }

  // ---------------------------------------------------------------------
  // Removal (`decompose`)

  /** The forest with the element `FindFirst(ns, sel)` and its subtree removed. */
  function RemoveFirst(ns: seq<Node>, sel: Selector): seq<Node>
    decreases ns
  {
    if ns == [] then []
    else if Matches(ns[0], sel) then ns[1..]
    else if ns[0].Element? && FindAll(ns[0].children, sel) != [] then
      [ns[0].(children := RemoveFirst(ns[0].children, sel))] + ns[1..]
    else [ns[0]] + RemoveFirst(ns[1..], sel)
  }

  /** Where `find` looks: the node itself, then below it, then its later siblings. */
  lemma FindFirstUnfold(ns: seq<Node>, sel: Selector)
    requires ns != []
    ensures FindFirst(ns, sel) ==
      if Matches(ns[0], sel) then Some(ns[0])
      else if FindAll(Kids(ns[0]), sel) != [] then FindFirst(Kids(ns[0]), sel)
      else FindFirst(ns[1..], sel)
  {
  }

  /** How many text nodes come before the element `FindFirst(ns, sel)`. */
  function TextsBefore(ns: seq<Node>, sel: Selector): nat
    decreases ns
  {
    if ns == [] || Matches(ns[0], sel) then 0
    else if ns[0].Element? && FindAll(ns[0].children, sel) != [] then TextsBefore(ns[0].children, sel)
    else |Texts([ns[0]])| + TextsBefore(ns[1..], sel)
  }

  lemma TextsOfOne(n: Node)
    ensures Texts([n]) == if n.Text? then [n.content] else Texts(n.children)
  {
    assert [n][1..] == [];
  }

  /** Decomposing the first match cuts exactly its text out of the text stream:
      whatever was before it and after it is kept, in order, and nothing else. */
  lemma {:induction false} RemoveFirstCutsItsText(ns: seq<Node>, sel: Selector, m: Node)
    requires FindFirst(ns, sel) == Some(m)
    ensures var rest, k := Texts(RemoveFirst(ns, sel)), TextsBefore(ns, sel);
      k <= |rest| && Texts(ns) == rest[..k] + Texts(Kids(m)) + rest[k..]
    decreases ns
  {
    FindFirstUnfold(ns, sel);
    if Matches(ns[0], sel) {
      CutHere(ns, sel);
    } else if FindAll(Kids(ns[0]), sel) != [] {
      RemoveFirstCutsItsText(ns[0].children, sel, m);
      CutBelow(ns, sel, m);
    } else {
      RemoveFirstCutsItsText(ns[1..], sel, m);
      CutLater(ns, sel, m);
    }
  }

  lemma CutHere(ns: seq<Node>, sel: Selector)
    requires ns != [] && Matches(ns[0], sel)
    ensures Texts(RemoveFirst(ns, sel)) == Texts(ns[1..]) && TextsBefore(ns, sel) == 0
    ensures Texts(ns) == Texts(Kids(ns[0])) + Texts(ns[1..])
  {
  }

  lemma CutBelow(ns: seq<Node>, sel: Selector, m: Node)
    requires ns != [] && !Matches(ns[0], sel) && ns[0].Element? && FindAll(ns[0].children, sel) != []
    requires var rest, k := Texts(RemoveFirst(ns[0].children, sel)), TextsBefore(ns[0].children, sel);
      k <= |rest| && Texts(ns[0].children) == rest[..k] + Texts(Kids(m)) + rest[k..]
    ensures var rest, k := Texts(RemoveFirst(ns, sel)), TextsBefore(ns, sel);
      k <= |rest| && Texts(ns) == rest[..k] + Texts(Kids(m)) + rest[k..]
  {
    var kids := ns[0].children;
    var e := ns[0].(children := RemoveFirst(kids, sel));
    var inner := Texts(RemoveFirst(kids, sel));
    var later := Texts(ns[1..]);
    assert RemoveFirst(ns, sel) == [e] + ns[1..];
    TextsAppend([e], ns[1..]);
    TextsOfOne(e);
    TextsAppend([ns[0]], ns[1..]);
    TextsOfOne(ns[0]);
    assert ns == [ns[0]] + ns[1..];
    SpliceBeforeTail(inner, Texts(Kids(m)), later, TextsBefore(kids, sel));
  }

  lemma CutLater(ns: seq<Node>, sel: Selector, m: Node)
    requires ns != [] && !Matches(ns[0], sel) && FindAll(Kids(ns[0]), sel) == []
    requires var rest, k := Texts(RemoveFirst(ns[1..], sel)), TextsBefore(ns[1..], sel);
      k <= |rest| && Texts(ns[1..]) == rest[..k] + Texts(Kids(m)) + rest[k..]
    ensures var rest, k := Texts(RemoveFirst(ns, sel)), TextsBefore(ns, sel);
      k <= |rest| && Texts(ns) == rest[..k] + Texts(Kids(m)) + rest[k..]
  {
    CutLaterParts(ns, sel);
    ShiftSplice(Texts(ns), Texts(ns[1..]), Texts(RemoveFirst(ns, sel)), Texts(RemoveFirst(ns[1..], sel)),
      Texts([ns[0]]), Texts(Kids(m)), TextsBefore(ns, sel), TextsBefore(ns[1..], sel));
  }

  lemma ShiftSplice<T>(whole: seq<T>, whole1: seq<T>, rest: seq<T>, rest1: seq<T>, head: seq<T>, mid: seq<T>, k: nat, k1: nat)
    requires rest == head + rest1 && k == |head| + k1 && whole == head + whole1
    requires k1 <= |rest1| && whole1 == rest1[..k1] + mid + rest1[k1..]
    ensures k <= |rest| && whole == rest[..k] + mid + rest[k..]
  {
    SpliceAfterHead(head, rest1, mid, k1);
  }

  lemma CutLaterParts(ns: seq<Node>, sel: Selector)
    requires ns != [] && !Matches(ns[0], sel) && FindAll(Kids(ns[0]), sel) == []
    ensures Texts(RemoveFirst(ns, sel)) == Texts([ns[0]]) + Texts(RemoveFirst(ns[1..], sel))
    ensures TextsBefore(ns, sel) == |Texts([ns[0]])| + TextsBefore(ns[1..], sel)
    ensures Texts(ns) == Texts([ns[0]]) + Texts(ns[1..])
  {
    assert RemoveFirst(ns, sel) == [ns[0]] + RemoveFirst(ns[1..], sel);
    TextsAppend([ns[0]], RemoveFirst(ns[1..], sel));
    assert ns == [ns[0]] + ns[1..];
    TextsAppend([ns[0]], ns[1..]);
  }

  /** Sequence bookkeeping for the two recursive cases above. */
  lemma SpliceBeforeTail<T>(inner: seq<T>, mid: seq<T>, later: seq<T>, k: nat)
    requires k <= |inner|
    ensures (inner + later)[..k] + mid + (inner + later)[k..] == (inner[..k] + mid + inner[k..]) + later
  {
    assert (inner + later)[..k] == inner[..k];
    assert (inner + later)[k..] == inner[k..] + later;
  }

  lemma SpliceAfterHead<T>(head: seq<T>, inner: seq<T>, mid: seq<T>, j: nat)
    requires j <= |inner|
    ensures (head + inner)[..|head| + j] + mid + (head + inner)[|head| + j..] == head + (inner[..j] + mid + inner[j..])
  {
    assert (head + inner)[..|head| + j] == head + inner[..j];
    assert (head + inner)[|head| + j..] == inner[j..];
  }

  /** `for x in find_all(sel): x.decompose()`: every subtree whose root matches
      is removed. */
  function Prune(ns: seq<Node>, sel: Selector): seq<Node>
    decreases ns
  {
    if ns == [] then []
    else if Matches(ns[0], sel) then Prune(ns[1..], sel)
    else if ns[0].Element? then [ns[0].(children := Prune(ns[0].children, sel))] + Prune(ns[1..], sel)
    else [ns[0]] + Prune(ns[1..], sel)
  }

  /** After the pass nothing matching `sel` is left. */
  lemma {:induction false} PruneRemovesAll(ns: seq<Node>, sel: Selector)
    ensures FindAll(Prune(ns, sel), sel) == []
    decreases ns
  {
    if ns != [] {
      PruneRemovesAll(ns[1..], sel);
      if !Matches(ns[0], sel) {
        var p := Prune(ns, sel);
        assert p[1..] == Prune(ns[1..], sel);
        if ns[0].Element? {
          PruneRemovesAll(ns[0].children, sel);
        }
      }
    }
  }

  /** Pruning only removes: it cannot make a match for another filter appear. */
  lemma {:induction false} PruneAddsNothing(ns: seq<Node>, sel: Selector, t: Selector)
    requires FindAll(ns, t) == []
    ensures FindAll(Prune(ns, sel), t) == []
    decreases ns
  {
    if ns != [] {
      PruneAddsNothing(ns[1..], sel, t);
      if !Matches(ns[0], sel) {
        var p := Prune(ns, sel);
        assert p[1..] == Prune(ns[1..], sel);
        if ns[0].Element? {
          PruneAddsNothing(ns[0].children, sel, t);
        }
      }
    }
  }

  /** The passes of the source, one filter after the other. */
  function PruneEach(ns: seq<Node>, sels: seq<Selector>): seq<Node>
    decreases |sels|
  {
    if sels == [] then ns else PruneEach(Prune(ns, sels[0]), sels[1..])
  }

  /** After all passes, no element matching any of the filters remains. */
  lemma {:induction false} PruneEachRemovesAll(ns: seq<Node>, sels: seq<Selector>, t: Selector)
    requires t in sels
    ensures FindAll(PruneEach(ns, sels), t) == []
    decreases |sels|
  {
    if sels[0] == t {
      PruneRemovesAll(ns, t);
      PruneEachKeepsAbsence(Prune(ns, t), sels[1..], t);
    } else {
      PruneEachRemovesAll(Prune(ns, sels[0]), sels[1..], t);
    }
  }

  lemma {:induction false} PruneEachKeepsAbsence(ns: seq<Node>, sels: seq<Selector>, t: Selector)
    requires FindAll(ns, t) == []
    ensures FindAll(PruneEach(ns, sels), t) == []
    decreases |sels|
  {
    if sels != [] {
      PruneAddsNothing(ns, sels[0], t);
      PruneEachKeepsAbsence(Prune(ns, sels[0]), sels[1..], t);
    }
  }
}
