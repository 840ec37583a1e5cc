/** The code generator: a depth-first walk that writes "0" for a left branch and
    "1" for a right branch, and gives a lone root leaf the code "0". */
module CodeGeneration {
  import opened Wrappers
  import opened Dicts
  import opened DataStructures
  import opened Trees

  /** The code stored for a leaf reached along `path` (`current_code if current_code else "0"`). */
  function PathCode(path: string): string
  {
    if path == "" then "0" else path
  }

  /** The table after `traverse_tree(node, path)` has written into `codes`. */
  function Emit(codes: Dict<string>, node: Option<Node>, path: string): Dict<string>
    decreases node
  {
    match node
    case None => codes
    case Some(n) =>
      if n.symbol.Some? then Put(codes, n.symbol.value, PathCode(path))
      else Emit(Emit(codes, n.leftChild, path + "0"), n.rightChild, path + "1")
  }

  /** `traverse_tree`, writing into the table it is given. */
  method Traverse(currentNode: Option<Node>, currentCode: string, codes: Dict<string>)
    returns (updated: Dict<string>)
    decreases currentNode
    ensures updated == Emit(codes, currentNode, currentCode)
  {
    if currentNode.None? {
      return codes;
    }
    var node := currentNode.value;
    if node.symbol.Some? {
      updated := Put(codes, node.symbol.value, if currentCode != "" then currentCode else "0");
      return;
    }
    updated := Traverse(node.leftChild, currentCode + "0", codes);
    updated := Traverse(node.rightChild, currentCode + "1", updated);
  }

  /** Reference definition: the (symbol, code) pair of every leaf, left to right,
      each code being the path from the node with `path` in front. */
  function LeafCodes(n: Node, path: string): seq<(string, string)>
  {
    if n.symbol.Some? then [(n.symbol.value, PathCode(path))]
    else (if n.leftChild.Some? then LeafCodes(n.leftChild.value, path + "0") else []) +
         (if n.rightChild.Some? then LeafCodes(n.rightChild.value, path + "1") else [])
  }

  /** Follows `bits` down from `n` (0 = left, 1 = right) and yields the symbol of
      the leaf where the bits run out, if any. */
  function Decode(n: Node, bits: string): Option<string>
    decreases |bits|
  {
    if n.symbol.Some? then (if bits == "" then n.symbol else None)
    else if bits == "" then None
    else
      var child := if bits[0] == '0' then n.leftChild else if bits[0] == '1' then n.rightChild else None;
      match child
      case None => None
      case Some(c) => Decode(c, bits[1..])
  }

  predicate IsBinary(s: string)
  {
    forall i :: 0 <= i < |s| ==> s[i] == '0' || s[i] == '1'
  }

  /** No code in the table is a prefix of another entry's code. */
  ghost predicate PrefixFree(table: seq<(string, string)>)
  {
    forall i, j :: 0 <= i < |table| && 0 <= j < |table| && i != j ==> !(table[i].1 <= table[j].1)
  }

  /** No two leaves carry the same symbol. */
  ghost predicate UniqueSymbols(n: Node)
  {
    DistinctKeys(Leaves(n))
  }

  /** One table entry per leaf, in left-to-right order. */
  lemma {:induction false} LeafCodesKeys(n: Node, path: string)
    ensures KeysOf(LeafCodes(n, path)) == LeafSymbols(n)
  {
    if n.symbol.None? {
      var lc := if n.leftChild.Some? then LeafCodes(n.leftChild.value, path + "0") else [];
      var rc := if n.rightChild.Some? then LeafCodes(n.rightChild.value, path + "1") else [];
      var ll := if n.leftChild.Some? then Leaves(n.leftChild.value) else [];
      var rl := if n.rightChild.Some? then Leaves(n.rightChild.value) else [];
      if n.leftChild.Some? { LeafCodesKeys(n.leftChild.value, path + "0"); }
      if n.rightChild.Some? { LeafCodesKeys(n.rightChild.value, path + "1"); }
      KeysOfConcat(lc, rc);
      KeysOfConcat(ll, rl);
    }
  }

  /** Every code under `n` extends `path` with binary digits; below an internal
      node the next digit tells the two subtrees apart. */
  lemma {:induction false} LeafCodesExtendPath(n: Node, path: string)
    requires WellFormed(n) && IsBinary(path)
    ensures forall i :: 0 <= i < |LeafCodes(n, path)| ==>
              path <= LeafCodes(n, path)[i].1 && IsBinary(LeafCodes(n, path)[i].1) &&
              LeafCodes(n, path)[i].1 != ""
    ensures n.symbol.None? ==>
              var lc := LeafCodes(n.leftChild.value, path + "0");
              LeafCodes(n, path) == lc + LeafCodes(n.rightChild.value, path + "1") &&
              (forall i :: 0 <= i < |LeafCodes(n, path)| ==>
                 |LeafCodes(n, path)[i].1| > |path| &&
                 LeafCodes(n, path)[i].1[|path|] == (if i < |lc| then '0' else '1'))
  {
    if n.symbol.None? {
      var l, r := n.leftChild.value, n.rightChild.value;
      var p0, p1 := path + "0", path + "1";
      LeafCodesExtendPath(l, p0);
      LeafCodesExtendPath(r, p1);
      var lc, rc := LeafCodes(l, p0), LeafCodes(r, p1);
      var t := LeafCodes(n, path);
      forall i | 0 <= i < |t|
        ensures path <= t[i].1 && IsBinary(t[i].1) && t[i].1 != ""
        ensures |t[i].1| > |path| && t[i].1[|path|] == (if i < |lc| then '0' else '1')
      {
        var pp := if i < |lc| then p0 else p1;
        assert t[i] == if i < |lc| then lc[i] else rc[i - |lc|];
        assert pp <= t[i].1;
        assert pp[|path|] == t[i].1[|path|];
      }
    } else {
      if path == "" {
        assert IsBinary("0");
      }
    }
  }

  /** The codes under `n` are prefix-free. */
  lemma {:induction false} LeafCodesPrefixFree(n: Node, path: string)
    requires WellFormed(n) && IsBinary(path)
    ensures PrefixFree(LeafCodes(n, path))
  {
    if n.symbol.None? {
      var l, r := n.leftChild.value, n.rightChild.value;
      LeafCodesPrefixFree(l, path + "0");
      LeafCodesPrefixFree(r, path + "1");
      LeafCodesExtendPath(n, path);
      var lc, rc := LeafCodes(l, path + "0"), LeafCodes(r, path + "1");
      var t := LeafCodes(n, path);
      forall i, j | 0 <= i < |t| && 0 <= j < |t| && i != j ensures !(t[i].1 <= t[j].1) {
        if i < |lc| && j < |lc| {
          assert t[i] == lc[i] && t[j] == lc[j];
        } else if i >= |lc| && j >= |lc| {
          assert t[i] == rc[i - |lc|] && t[j] == rc[j - |lc|];
        } else {
          assert t[i].1[|path|] != t[j].1[|path|];
        }
      }
    }
  }

  /** Following a leaf's code (after `path`) from `n` leads back to that leaf. */
  lemma {:induction false} LeafCodesDecode(n: Node, path: string, i: nat)
    requires WellFormed(n) && IsBinary(path) && (n.symbol.None? || path != "")
    requires i < |LeafCodes(n, path)|
    ensures path <= LeafCodes(n, path)[i].1
    ensures Decode(n, LeafCodes(n, path)[i].1[|path|..]) == Some(LeafCodes(n, path)[i].0)
  {
    LeafCodesExtendPath(n, path);
    var t := LeafCodes(n, path);
    if n.symbol.None? {
      var l, r := n.leftChild.value, n.rightChild.value;
      var lc, rc := LeafCodes(l, path + "0"), LeafCodes(r, path + "1");
      var code := t[i].1;
      var rest := code[|path|..];
      assert rest != "" && rest[1..] == code[|path| + 1..];
      if i < |lc| {
        assert t[i] == lc[i];
        LeafCodesDecode(l, path + "0", i);
        assert rest[0] == '0';
      } else {
        assert t[i] == rc[i - |lc|];
        LeafCodesDecode(r, path + "1", i - |lc|);
        assert rest[0] == '1';
      }
    } else {
      assert t[i].1 == path;
      assert t[i].1[|path|..] == "";
    }
  }

  /** Distinct symbols under an internal node: distinct within each subtree and
      none shared between the two. */
  lemma UniqueSymbolsSplit(n: Node)
    requires WellFormed(n) && n.symbol.None? && UniqueSymbols(n)
    ensures UniqueSymbols(n.leftChild.value) && UniqueSymbols(n.rightChild.value)
    ensures forall s :: s in LeafSymbols(n.rightChild.value) ==> s !in LeafSymbols(n.leftChild.value)
  {
    var ll, rl := Leaves(n.leftChild.value), Leaves(n.rightChild.value);
    var all := Leaves(n);
    assert all == ll + rl;
    forall i, j | 0 <= i < j < |ll| ensures ll[i].0 != ll[j].0 {
      assert all[i] == ll[i] && all[j] == ll[j];
    }
    forall i, j | 0 <= i < j < |rl| ensures rl[i].0 != rl[j].0 {
      assert all[|ll| + i] == rl[i] && all[|ll| + j] == rl[j];
    }
    forall s | s in KeysOf(rl) ensures s !in KeysOf(ll) {
      var j :| 0 <= j < |rl| && rl[j].0 == s;
      forall i | 0 <= i < |ll| ensures ll[i].0 != s {
        assert all[i] == ll[i] && all[|ll| + j] == rl[j];
      }
    }
  }

  /** With distinct leaf symbols every write adds a new entry, so the traversal
      appends the reference table to what was there. */
  lemma {:induction false} EmitAppends(codes: Dict<string>, n: Node, path: string)
    requires WellFormed(n) && UniqueSymbols(n)
    requires forall s :: s in LeafSymbols(n) ==> s !in KeysOf(codes)
    ensures Emit(codes, Some(n), path) == codes + LeafCodes(n, path)
    decreases n
  {
    if n.symbol.Some? {
      assert LeafSymbols(n) == [n.symbol.value];
    } else {
      var l, r := n.leftChild.value, n.rightChild.value;
      var lc, rc := LeafCodes(l, path + "0"), LeafCodes(r, path + "1");
      var afterLeft := Emit(codes, Some(l), path + "0");
      assert afterLeft == codes + lc by {
        UniqueSymbolsSplit(n);
        KeysOfConcat(Leaves(l), Leaves(r));
        EmitAppends(codes, l, path + "0");
      }
      assert Emit(afterLeft, Some(r), path + "1") == afterLeft + rc by {
        UniqueSymbolsSplit(n);
        KeysOfConcat(Leaves(l), Leaves(r));
        LeafCodesKeys(l, path + "0");
        KeysOfConcat(codes, lc);
        assert KeysOf(afterLeft) == KeysOf(codes) + LeafSymbols(l);
        forall s | s in LeafSymbols(r) ensures s !in KeysOf(afterLeft) {
          assert s in LeafSymbols(n);
        }
        EmitAppends(afterLeft, r, path + "1");
      }
      assert LeafCodes(n, path) == lc + rc;
      assert Emit(codes, Some(n), path) == Emit(afterLeft, Some(r), path + "1");
      assert afterLeft + rc == codes + (lc + rc);
    }
  }

  /** What the generated table is, for a well-formed tree with distinct symbols:
      one entry per leaf in left-to-right order, every code a non-empty string of
      binary digits, no code a prefix of another, each code the path that leads
      to its leaf, and "0" for a root that is itself a leaf. */
  ghost predicate IsCodeTableOf(codes: seq<(string, string)>, root: Node)
  {
    KeysOf(codes) == LeafSymbols(root) &&
    (forall i :: 0 <= i < |codes| ==> IsBinary(codes[i].1) && codes[i].1 != "") &&
    PrefixFree(codes) &&
    (root.symbol.None? ==> forall i :: 0 <= i < |codes| ==> Decode(root, codes[i].1) == Some(codes[i].0)) &&
    (root.symbol.Some? ==> codes == [(root.symbol.value, "0")])
  }

  /** Below an internal root, every code in the reference table decodes to its symbol. */
  lemma TableDecodes(root: Node)
    requires WellFormed(root) && root.symbol.None?
    ensures forall i :: 0 <= i < |LeafCodes(root, "")| ==>
              Decode(root, LeafCodes(root, "")[i].1) == Some(LeafCodes(root, "")[i].0)
  {
    var t := LeafCodes(root, "");
    forall i | 0 <= i < |t| ensures Decode(root, t[i].1) == Some(t[i].0) {
      LeafCodesDecode(root, "", i);
      assert t[i].1[0..] == t[i].1;
    }
  }

  lemma TableFromTree(root: Node)
    requires WellFormed(root) && UniqueSymbols(root)
    ensures Emit([], Some(root), "") == LeafCodes(root, "")
    ensures IsCodeTableOf(LeafCodes(root, ""), root)
  {
    assert Emit([], Some(root), "") == LeafCodes(root, "") by {
      EmitAppends([], root, "");
      assert [] + LeafCodes(root, "") == LeafCodes(root, "");
    }
    LeafCodesKeys(root, "");
    LeafCodesExtendPath(root, "");
    LeafCodesPrefixFree(root, "");
    if root.symbol.None? {
      TableDecodes(root);
    }
  }

  /** `generate_codes_from_tree`. */
  method GenerateCodesFromTree(treeRoot: Option<Node>) returns (codes: Dict<string>)
    ensures codes == Emit([], treeRoot, "")
    ensures treeRoot.None? ==> codes == []
    ensures treeRoot.Some? && WellFormed(treeRoot.value) && UniqueSymbols(treeRoot.value) ==>
              IsCodeTableOf(codes, treeRoot.value)
  {
    codes := Traverse(treeRoot, "", []);
    if treeRoot.Some? && WellFormed(treeRoot.value) && UniqueSymbols(treeRoot.value) {
      TableFromTree(treeRoot.value);
    }
  }
}
