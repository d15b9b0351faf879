/** Editing a compact table while a loop walks over it. */
module Compaction {
  import opened Seqs

  function Replaced<T>(s: seq<T>, i: nat, repl: seq<T>): (r: seq<T>)
    requires i < |s|
  {
    s[..i] + repl + s[i + 1..]
  }

  /** Visited part and unvisited part of the table after one visit. */
  lemma Advance<T>(table: seq<T>, i: nat, repl: seq<T>, all: seq<T>, k: nat)
    requires i < |table| && k < |all| && table[i..] == all[k..]
    ensures table[i] == all[k]
    ensures Replaced(table, i, repl)[..i + |repl|] == table[..i] + repl
    ensures Replaced(table, i, repl)[i + |repl|..] == all[k + 1..]
  {
    assert table[i..][0] == all[k..][0];
    assert table[i + 1..] == table[i..][1..] == all[k..][1..];
  }
}
