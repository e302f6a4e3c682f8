/**
 The hash table of a cache: an array of chains that is rebuilt when it holds more handles than chains.
 Hashes come from outside, so nothing is assumed of them.
 */
module HandleTables {
  import opened InternalKeys

  /** A handle in the table, with the key and the hash it was inserted under. */
  datatype Node = Node(id: nat, key: Bytes, hash: nat)

  predicate Matches(n: Node, key: Bytes, hash: nat) {
    n.hash == hash && n.key == key
  }

  /** The chain for a hash, when there are `length` of them. */
  function Bucket(hash: nat, length: nat): (b: nat)
    requires length > 0
    ensures b < length
  {
    hash % length
  }

  ghost predicate NoRepeats(chain: seq<Node>) {
    forall i, j :: 0 <= i < j < |chain| ==> chain[i] != chain[j]
  }

  /** The chains hold exactly these nodes, each in the chain of its hash. */
  ghost predicate Chains(list: seq<seq<Node>>, nodes: set<Node>) {
    && |list| > 0
    && (forall b :: 0 <= b < |list| ==> NoRepeats(list[b]))
    && (forall b, n :: 0 <= b < |list| && n in list[b] ==> n in nodes && Bucket(n.hash, |list|) == b)
    && (forall n :: n in nodes ==> n in list[Bucket(n.hash, |list|)])
  }

  /** A key and a hash name at most one handle. */
  ghost predicate OnePerKey(nodes: set<Node>) {
    forall m, n :: m in nodes && n in nodes && m.key == n.key && m.hash == n.hash ==> m == n
  }

  /** Where in a chain the key is, or its end. */
  function IndexOf(chain: seq<Node>, key: Bytes, hash: nat): (i: nat)
    ensures i <= |chain|
    ensures i < |chain| ==> Matches(chain[i], key, hash)
    ensures forall j :: 0 <= j < i ==> !Matches(chain[j], key, hash)
  {
    if chain == [] || Matches(chain[0], key, hash) then 0 else 1 + IndexOf(chain[1..], key, hash)
  }

  lemma {:induction false} IndexIsFirst(chain: seq<Node>, key: Bytes, hash: nat, i: nat)
    requires i <= |chain| && forall j :: 0 <= j < i ==> !Matches(chain[j], key, hash)
    requires i < |chain| ==> Matches(chain[i], key, hash)
    ensures IndexOf(chain, key, hash) == i
  {
  }

  class HandleTable {
    var list: seq<seq<Node>>
    var elems: nat
    ghost var nodes: set<Node>

    constructor ()
      ensures Valid() && nodes == {}
    {
      list, elems, nodes := [[], [], [], []], 0, {};
    }

    ghost predicate Valid()
      reads this
    {
      Chains(list, nodes) && OnePerKey(nodes) && elems == |nodes|
    }

    /** The chain and the place in it where a key is, or where it would be added. */
    method FindPointer(key: Bytes, hash: nat) returns (b: nat, i: nat)
      requires |list| > 0
      ensures b == Bucket(hash, |list|) && i == IndexOf(list[b], key, hash)
    {
      b := Bucket(hash, |list|);
      i := 0;
      while i < |list[b]| && (list[b][i].hash != hash || key != list[b][i].key)
        invariant i <= |list[b]|
        invariant forall j :: 0 <= j < i ==> !Matches(list[b][j], key, hash)
      {
        i := i + 1;
      }
      IndexIsFirst(list[b], key, hash, i);
    }

    method Lookup(key: Bytes, hash: nat) returns (r: Option<Node>)
      requires Valid()
      ensures r.Some? ==> r.value in nodes && Matches(r.value, key, hash)
      ensures r.None? ==> forall n :: n in nodes ==> !Matches(n, key, hash)
    {
      var b, i := FindPointer(key, hash);
      if i < |list[b]| {
        r := Some(list[b][i]);
      } else {
        r := None;
      }
    }

    /** Adds a node in place of the one with its key, which is returned. */
    method Insert(h: Node) returns (previous: Option<Node>)
      requires Valid() && h !in nodes
      modifies this
      ensures Valid()
      ensures previous.Some? ==>
                && previous.value in old(nodes) && Matches(previous.value, h.key, h.hash)
                && nodes == old(nodes) - {previous.value} + {h}
      ensures previous.None? ==>
                (forall n :: n in old(nodes) ==> !Matches(n, h.key, h.hash)) && nodes == old(nodes) + {h}
    {
      var b, i := FindPointer(h.key, h.hash);
      var chain := list[b];
      if i < |chain| {
        previous := Some(chain[i]);
        ReplaceKeeps(list, nodes, b, i, h);
        list := list[b := chain[i := h]];
        nodes := nodes - {chain[i]} + {h};
      } else {
        previous := None;
        AddKeeps(list, nodes, b, h);
        list := list[b := chain + [h]];
        nodes := nodes + {h};
        elems := elems + 1;
        if elems > |list| {
          Resize();
        }
      }
    }

    method Remove(key: Bytes, hash: nat) returns (result: Option<Node>)
      requires Valid()
      modifies this
      ensures Valid()
      ensures result.Some? ==>
                && result.value in old(nodes) && Matches(result.value, key, hash)
                && nodes == old(nodes) - {result.value}
      ensures result.None? ==> (forall n :: n in old(nodes) ==> !Matches(n, key, hash)) && nodes == old(nodes)
    {
      var b, i := FindPointer(key, hash);
      var chain := list[b];
      if i < |chain| {
        result := Some(chain[i]);
        RemoveKeeps(list, nodes, b, i);
        list := list[b := chain[..i] + chain[i + 1..]];
        nodes := nodes - {chain[i]};
        elems := elems - 1;
      } else {
        result := None;
      }
    }

    /** Moves every node to the front of its chain in a larger table. */
    method Resize()
      requires Chains(list, nodes)
      modifies this`list
      ensures Chains(list, nodes)
    {
      var newLength: nat := 4;
      while newLength < elems
        invariant newLength >= 4
        decreases if newLength < elems then elems - newLength else 0
      {
        newLength := newLength * 2;
      }
      list := Rehash(list, newLength, nodes);
    }
  }

  /** The nodes whose chains come before chain `i`. */
  ghost function NodesBefore(nodes: set<Node>, length: nat, i: nat): set<Node>
    requires length > 0
  {
    set n | n in nodes && Bucket(n.hash, length) < i
  }

  method Rehash(list: seq<seq<Node>>, newLength: nat, ghost nodes: set<Node>) returns (newList: seq<seq<Node>>)
    requires Chains(list, nodes) && newLength > 0
    ensures Chains(newList, nodes) && |newList| == newLength
  {
    newList := seq(newLength, _ => []);
    ghost var moved: set<Node> := {};
    for i := 0 to |list|
      invariant Chains(newList, moved) && |newList| == newLength
      invariant moved == NodesBefore(nodes, |list|, i)
    {
      newList, moved := MoveChain(newList, list[i], moved);
      assert moved == NodesBefore(nodes, |list|, i + 1);
    }
    assert moved == nodes;
  }

  method MoveChain(newList0: seq<seq<Node>>, chain: seq<Node>, ghost moved0: set<Node>)
    returns (newList: seq<seq<Node>>, ghost moved: set<Node>)
    requires Chains(newList0, moved0) && NoRepeats(chain) && forall n :: n in chain ==> n !in moved0
    ensures Chains(newList, moved) && |newList| == |newList0|
    ensures moved == moved0 + set n | n in chain
  {
    newList, moved := newList0, moved0;
    for j := 0 to |chain|
      invariant Chains(newList, moved) && |newList| == |newList0|
      invariant moved == moved0 + set n | n in chain[..j]
    {
      var h := chain[j];
      var b := Bucket(h.hash, |newList|);
      assert h !in chain[..j];
      AddFrontKeeps(newList, moved, b, h);
      newList := newList[b := [h] + newList[b]];
      moved := moved + {h};
      assert chain[..j + 1] == chain[..j] + [h];
    }
    assert chain[..|chain|] == chain;
  }

  lemma {:induction false} ReplaceKeeps(list: seq<seq<Node>>, nodes: set<Node>, b: nat, i: nat, h: Node)
    requires Chains(list, nodes) && OnePerKey(nodes) && h !in nodes
    requires b == Bucket(h.hash, |list|) && i < |list[b]| && Matches(list[b][i], h.key, h.hash)
    ensures list[b][i] in nodes
    ensures Chains(list[b := list[b][i := h]], nodes - {list[b][i]} + {h}) && OnePerKey(nodes - {list[b][i]} + {h})
    ensures |nodes - {list[b][i]} + {h}| == |nodes|
  {
    var gone, chain := list[b][i], list[b];
    var more, left := list[b := chain[i := h]], nodes - {gone} + {h};
    assert gone in chain;
    assert gone !in more[b];
    forall n | n in nodes && n != gone ensures n in more[Bucket(n.hash, |list|)] {
      var c := Bucket(n.hash, |list|);
      var j :| 0 <= j < |list[c]| && list[c][j] == n;
      assert more[c][j] == n;
    }
    assert more[b][i] == h;
    forall c, n | 0 <= c < |more| && n in more[c] ensures n in left && Bucket(n.hash, |list|) == c {
      var j :| 0 <= j < |more[c]| && more[c][j] == n;
      assert (c == b && j == i) || n in list[c];
    }
  }

  lemma {:induction false} AddKeeps(list: seq<seq<Node>>, nodes: set<Node>, b: nat, h: Node)
    requires Chains(list, nodes) && OnePerKey(nodes) && h !in nodes
    requires b == Bucket(h.hash, |list|) && IndexOf(list[b], h.key, h.hash) == |list[b]|
    ensures Chains(list[b := list[b] + [h]], nodes + {h}) && OnePerKey(nodes + {h}) && |nodes + {h}| == |nodes| + 1
    ensures forall n :: n in nodes ==> !Matches(n, h.key, h.hash)
  {
    var more := list[b := list[b] + [h]];
    assert h in more[b];
    assert h !in list[b];
    forall n | n in nodes ensures n in more[Bucket(n.hash, |list|)] && !Matches(n, h.key, h.hash) {
      var c := Bucket(n.hash, |list|);
      assert n in list[c];
    }
  }

  lemma {:induction false} AddFrontKeeps(list: seq<seq<Node>>, nodes: set<Node>, b: nat, h: Node)
    requires Chains(list, nodes) && h !in nodes && b == Bucket(h.hash, |list|)
    ensures Chains(list[b := [h] + list[b]], nodes + {h})
  {
    var more := list[b := [h] + list[b]];
    assert h in more[b] && h !in list[b];
    forall n | n in nodes ensures n in more[Bucket(n.hash, |list|)] {
      assert n in list[Bucket(n.hash, |list|)];
    }
  }

  lemma {:induction false} RemoveKeeps(list: seq<seq<Node>>, nodes: set<Node>, b: nat, i: nat)
    requires Chains(list, nodes) && OnePerKey(nodes) && b < |list| && i < |list[b]|
    ensures list[b][i] in nodes
    ensures Chains(list[b := list[b][..i] + list[b][i + 1..]], nodes - {list[b][i]}) && OnePerKey(nodes - {list[b][i]})
    ensures |nodes - {list[b][i]}| == |nodes| - 1
  {
    var gone, chain := list[b][i], list[b];
    var rest := chain[..i] + chain[i + 1..];
    var less := list[b := rest];
    assert gone in chain;
    assert gone !in rest;
    forall n | n in nodes && n != gone ensures n in less[Bucket(n.hash, |list|)] {
      var c := Bucket(n.hash, |list|);
      var j :| 0 <= j < |list[c]| && list[c][j] == n;
      if c == b {
        assert rest[if j < i then j else j - 1] == n;
      }
    }
  }
}
