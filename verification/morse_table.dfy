/** The Morse code table of the decoder, the map built from it, and its
    inversion (the map from a dit/dah code back to its character). */
module MorseTable {

  /** The pairs of the table, in the order they are listed: a one-character
      key and its code over '.' (dit) and '-' (dah). */
  const Entries: seq<(string, string)> := [
    ("A", ".-"), ("B", "-..."), ("C", "-.-."), ("D", "-.."), ("E", "."),
    ("F", "..-."), ("G", "--."), ("H", "...."), ("I", ".."), ("J", ".---"),
    ("K", "-.-"), ("L", ".-.."), ("M", "--"), ("N", "-."), ("O", "---"),
    ("P", ".--."), ("Q", "--.-"), ("R", ".-."), ("S", "..."), ("T", "-"),
    ("U", "..-"), ("V", "...-"), ("W", ".--"), ("X", "-..-"), ("Y", "-.--"),
    ("Z", "--.."),
    ("0", "-----"), ("1", ".----"), ("2", "..---"), ("3", "...--"), ("4", "....-"),
    ("5", "....."), ("6", "-...."), ("7", "--..."), ("8", "---.."), ("9", "----.")
  ]

  /** Builds a map from pairs the way Kotlin's `mapOf` and `associate` do:
      pairs are inserted left to right, so a later pair overwrites an
      earlier one with the same key. */
  function Associate<K, V>(ps: seq<(K, V)>): (m: map<K, V>)
    ensures m.Keys == set i | 0 <= i < |ps| :: ps[i].0
    decreases |ps|
  {
    if |ps| == 0 then map[]
    else
      var m' := Associate(ps[..|ps| - 1]);
      assert forall i :: 0 <= i < |ps| - 1 ==> ps[..|ps| - 1][i] == ps[i];
      m'[ps[|ps| - 1].0 := ps[|ps| - 1].1]
  }

  ghost predicate DistinctKeys<K, V>(ps: seq<(K, V)>) {
    forall i, j :: 0 <= i < j < |ps| ==> ps[i].0 != ps[j].0
  }

  /** With pairwise distinct keys, no pair is overwritten: every pair is in
      the map. */
  lemma {:induction false} AssociateDistinct<K, V>(ps: seq<(K, V)>)
    requires DistinctKeys(ps)
    ensures forall i :: 0 <= i < |ps| ==> ps[i].0 in Associate(ps) && Associate(ps)[ps[i].0] == ps[i].1
    decreases |ps|
  {
    if |ps| > 0 {
      var init := ps[..|ps| - 1];
      assert forall i :: 0 <= i < |init| ==> init[i] == ps[i];
      assert DistinctKeys(init);
      AssociateDistinct(init);
    }
  }

  function Swap<K, V>(ps: seq<(K, V)>): (qs: seq<(V, K)>)
    ensures |qs| == |ps|
    ensures forall i :: 0 <= i < |ps| ==> qs[i] == (ps[i].1, ps[i].0)
  {
    seq(|ps|, i requires 0 <= i < |ps| => (ps[i].1, ps[i].0))
  }

  /** The character-to-code map: it holds every listed pair, and its keys
      are exactly the listed characters. */
  function MorseCodeMap(): (m: map<string, string>)
    ensures forall i :: 0 <= i < |Entries| ==> Entries[i].0 in m && m[Entries[i].0] == Entries[i].1
    ensures forall k :: k in m <==> exists i :: 0 <= i < |Entries| && Entries[i].0 == k
  {
    KeysDistinct();
    AssociateDistinct(Entries);
    Associate(Entries)
  }

  /** The code-to-character map: the entries of the character-to-code map
      (in insertion order, which is the order of `Entries`) associated the
      other way round. */
  function ReversedMorseCodeMap(): (m: map<string, string>)
    ensures forall c :: c in m <==> exists i :: 0 <= i < |Entries| && Entries[i].1 == c
  {
    Associate(Swap(Entries))
  }

  /** The dichotomic Morse tree: from the root, a dit takes the left branch
      and a dah the right one, and the node reached by a code carries its
      character. Nodes on the way to a longer code that carry no character
      of the table hold '*'. This is an independent statement of the same
      alphabet; it shows that the table's codes are pairwise distinct. */
  datatype MorseTree = Leaf | Node(ch: char, dit: MorseTree, dah: MorseTree)

  function Tip(c: char): MorseTree {
    Node(c, Leaf, Leaf)
  }

  const Dichotomic: MorseTree :=
    Node('*',
      Node('E',
        Node('I',
          Node('S', Node('H', Tip('5'), Tip('4')), Node('V', Leaf, Tip('3'))),
          Node('U', Tip('F'), Node('*', Leaf, Tip('2')))),
        Node('A',
          Node('R', Tip('L'), Leaf),
          Node('W', Tip('P'), Node('J', Leaf, Tip('1'))))),
      Node('T',
        Node('N',
          Node('D', Node('B', Tip('6'), Leaf), Tip('X')),
          Node('K', Tip('C'), Tip('Y'))),
        Node('M',
          Node('G', Node('Z', Tip('7'), Leaf), Tip('Q')),
          Node('O', Node('*', Tip('8'), Leaf), Node('*', Tip('9'), Tip('0'))))))

  /** The character at the node reached by following `code` from its `k`-th
      symbol on, or '*' when the code leaves the tree. */
  function Walk(t: MorseTree, code: string, k: nat): char
    requires k <= |code|
    decreases |code| - k
  {
    if k == |code| then (if t.Node? then t.ch else '*')
    else match t
      case Leaf => '*'
      case Node(_, dit, dah) => Walk(if code[k] == '.' then dit else dah, code, k + 1)
  }

  /** A string of dits and dahs only. */
  predicate IsCode(s: string) {
    forall k :: 0 <= k < |s| ==> s[k] == '.' || s[k] == '-'
  }

  /** An entry agrees with the tree: its key is one character, its code is a
      non-empty string of dits and dahs, and walking the code from the root
      reaches the key. */
  predicate AgreesWithTree(e: (string, string)) {
    && |e.0| == 1
    && |e.1| >= 1
    && IsCode(e.1)
    && Walk(Dichotomic, e.1, 0) == e.0[0]
  }

  /** The letters A to L agree with the tree. */
  lemma FirstEntriesAgree()
    ensures forall i :: 0 <= i < 12 ==> AgreesWithTree(Entries[i])
  {
  }

  /** The letters M to X agree with the tree. */
  lemma MiddleEntriesAgree()
    ensures forall i :: 12 <= i < 24 ==> AgreesWithTree(Entries[i])
  {
  }

  /** Y, Z and the digits agree with the tree. */
  lemma LastEntriesAgree()
    ensures forall i :: 24 <= i < |Entries| ==> AgreesWithTree(Entries[i])
  {
  }

  lemma EntriesAgreeWithTree()
    ensures forall i :: 0 <= i < |Entries| ==> AgreesWithTree(Entries[i])
  {
    FirstEntriesAgree();
    MiddleEntriesAgree();
    LastEntriesAgree();
  }

  /** The position of a key in the table's own order: letters first, then
      digits. */
  function KeyRank(c: char): int {
    if 'A' <= c <= 'Z' then c as int - 'A' as int
    else c as int - '0' as int + 26
  }

  /** Each key's rank is its position in the table. */
  lemma KeysRanked()
    ensures forall i :: 0 <= i < |Entries| ==> |Entries[i].0| == 1 && KeyRank(Entries[i].0[0]) == i
  {
  }

  /** No two entries share a key. */
  lemma KeysDistinct()
    ensures DistinctKeys(Entries)
  {
    KeysRanked();
    forall i, j | 0 <= i < j < |Entries|
      ensures Entries[i].0 != Entries[j].0
    {
      assert KeyRank(Entries[i].0[0]) != KeyRank(Entries[j].0[0]);
    }
  }

  /** No two entries share a code, so the inversion loses nothing. */
  lemma CodesDistinct()
    ensures DistinctKeys(Swap(Entries))
  {
    EntriesAgreeWithTree();
    KeysDistinct();
    forall i, j | 0 <= i < j < |Entries|
      ensures Entries[i].1 != Entries[j].1
    {
      assert AgreesWithTree(Entries[i]) && AgreesWithTree(Entries[j]);
      assert Entries[i].0 == [Entries[i].0[0]] && Entries[j].0 == [Entries[j].0[0]];
    }
  }

  /** With distinct keys and distinct values, associating the swapped pairs
      inverts the map of the pairs, in both directions. */
  lemma {:induction false} AssociateInverse<K, V>(ps: seq<(K, V)>)
    requires DistinctKeys(ps) && DistinctKeys(Swap(ps))
    ensures forall i :: 0 <= i < |ps| ==>
      ps[i].0 in Associate(ps) && Associate(ps)[ps[i].0] in Associate(Swap(ps)) &&
      Associate(Swap(ps))[Associate(ps)[ps[i].0]] == ps[i].0
    ensures forall v :: v in Associate(Swap(ps)) ==>
      Associate(Swap(ps))[v] in Associate(ps) && Associate(ps)[Associate(Swap(ps))[v]] == v
  {
    var m, r := Associate(ps), Associate(Swap(ps));
    AssociateDistinct(ps);
    AssociateDistinct(Swap(ps));
    forall v | v in r
      ensures r[v] in m && m[r[v]] == v
    {
      var i :| 0 <= i < |ps| && Swap(ps)[i].0 == v;
      assert r[v] == ps[i].0;
    }
  }

  /** The inversion is a true inverse, in both directions: it maps each
      character's code back to the character, and every code it knows maps
      to a character whose code it is. */
  lemma ReversedIsInverse()
    ensures forall i :: 0 <= i < |Entries| ==>
      Entries[i].0 in MorseCodeMap() && MorseCodeMap()[Entries[i].0] in ReversedMorseCodeMap() &&
      ReversedMorseCodeMap()[MorseCodeMap()[Entries[i].0]] == Entries[i].0
    ensures forall c :: c in ReversedMorseCodeMap() ==>
      ReversedMorseCodeMap()[c] in MorseCodeMap() && MorseCodeMap()[ReversedMorseCodeMap()[c]] == c
  {
    KeysDistinct();
    CodesDistinct();
    AssociateInverse(Entries);
  }

  /** The decoder's lookup, `getOrDefault(code, "")`: the character of a
      code, or the empty string for a code the table does not know. */
  function Lookup(code: string): (c: string)
    ensures c == "" || (|c| == 1 && c in MorseCodeMap() && MorseCodeMap()[c] == code)
  {
    ReversedIsInverse();
    KeysRanked();
    if code in ReversedMorseCodeMap() then ReversedMorseCodeMap()[code] else ""
  }

  /** Looking up the code of any listed character yields that character. */
  lemma LookupKnown()
    ensures forall i :: 0 <= i < |Entries| ==> Lookup(Entries[i].1) == Entries[i].0
  {
    CodesDistinct();
    AssociateDistinct(Swap(Entries));
  }

  /** A string that is the code of no listed character looks up to the empty
      string, and only such a string does: every character of the table is
      one character long. */
  lemma LookupUnknown(code: string)
    ensures Lookup(code) == "" <==> forall i :: 0 <= i < |Entries| ==> Entries[i].1 != code
  {
    CodesDistinct();
    AssociateDistinct(Swap(Entries));
    KeysRanked();
  }
}
