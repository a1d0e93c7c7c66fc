/**
The registry of routing tables in /etc/iproute2/rt_tables (pkg/route/table.go): one line for each
table, looked up by searching every line for the digits of the identifier.
*/
module RtTables {
  import opened Decimal
  import opened Strings

  predicate Mentions(line: string, id: nat) { Contains(line, Digits(id)) }

  predicate Registered(lines: seq<string>, id: nat) { exists i :: 0 <= i < |lines| && Mentions(lines[i], id) }

  function Entry(id: nat, name: string): string { Digits(id) + "\t" + name }

  /** The lines `DeleteTableID` writes back. */
  function Without(lines: seq<string>, id: nat): (r: seq<string>)
    ensures !Registered(r, id)
  {
    if lines == [] then []
    else
      var rest := Without(lines[1..], id);
      if Mentions(lines[0], id) then rest else [lines[0]] + rest
  }

  lemma {:induction false} WithoutAppend(a: seq<string>, b: seq<string>, id: nat)
    ensures Without(a + b, id) == Without(a, id) + Without(b, id)
  {
    if a == [] {
      assert a + b == b;
    } else {
      assert (a + b)[1..] == a[1..] + b;
      WithoutAppend(a[1..], b, id);
    }
  }

  lemma {:induction false} WithoutUnregistered(lines: seq<string>, id: nat)
    ensures Without(lines, id) == lines <==> !Registered(lines, id)
    ensures |Without(lines, id)| <= |lines|
  {
    if lines != [] {
      WithoutUnregistered(lines[1..], id);
      if Registered(lines[1..], id) {
        var i :| 0 <= i < |lines[1..]| && Mentions(lines[1..][i], id);
        assert Mentions(lines[i + 1], id);
      }
      if Registered(lines, id) && !Mentions(lines[0], id) {
        var i :| 0 <= i < |lines| && Mentions(lines[i], id);
        assert Mentions(lines[1..][i - 1], id);
      }
    }
  }

  lemma {:induction false} EntryMentions(id: nat, name: string)
    ensures Mentions(Entry(id, name), id)
  {
    var e, d := Entry(id, name), Digits(id);
    assert StartsAt(e, d, 0);
  }

  function Present(lines: seq<string>, id: nat, name: string): seq<string> {
    if Registered(lines, id) then lines else lines + [Entry(id, name)]
  }

  /** Afterwards the identifier is registered; a line is added, at the end, exactly when none mentioned it. */
  lemma {:induction false} PresentExact(lines: seq<string>, id: nat, name: string)
    ensures var r := Present(lines, id, name);
            && Registered(r, id) && lines <= r
            && (if exists i :: 0 <= i < |lines| && Contains(lines[i], Digits(id)) then r == lines
                else |r| == |lines| + 1 && r[|lines|] == Digits(id) + "\t" + name)
  {
    EntryMentions(id, name);
    var r := Present(lines, id, name);
    if r != lines { assert Mentions(r[|lines|], id); }
  }

  /**
  Registering a table and removing it again restores the registry exactly when no line mentioned its
  digits before; otherwise the lines that did are lost.
  */
  lemma {:induction false} RegisterThenRemove(lines: seq<string>, id: nat, name: string)
    ensures Without(Present(lines, id, name), id) == lines <==> !Registered(lines, id)
  {
    WithoutUnregistered(lines, id);
    if !Registered(lines, id) {
      WithoutAppend(lines, [Entry(id, name)], id);
      EntryMentions(id, name);
      assert Without([Entry(id, name)], id) == [];
    }
  }

  /** The line of another table survives a removal exactly when it does not contain the removed digits anywhere. */
  lemma {:induction false} OtherEntrySurvivesIff(lines: seq<string>, id: nat, line: string)
    ensures line in Without(lines, id) <==> line in lines && !Mentions(line, id)
  {
    if lines != [] { OtherEntrySurvivesIff(lines[1..], id, line); }
  }

  /** Removing a table also removes every table whose identifier is its own with one more digit. */
  lemma {:induction false} RemovalHitsAnother(id: nat, digit: nat, name: string)
    requires id > 0 && digit < 10
    ensures Without([Entry(id * 10 + digit, name)], id) == []
  {
    var e, d := Entry(id * 10 + digit, name), Digits(id);
    assert (id * 10 + digit) / 10 == id;
    assert d <= Digits(id * 10 + digit) <= e;
    assert StartsAt(e, d, 0);
  }

  // ----- identifiers

  predicate Byte(n: nat) { n < 256 }

  function Combine(b0: nat, b1: nat, b2: nat, b3: nat): nat { b3 * 0x100_0000 + b2 * 0x1_0000 + b1 * 0x100 + b0 }

  /** `generateTableID` from the first four bytes of the hash; `id` is the same array as `hash`. */
  method GenerateTableID(hash: array<nat>) returns (r: nat)
    requires hash.Length >= 4 && forall i :: 0 <= i < 4 ==> Byte(hash[i])
    modifies hash
    ensures 256 <= r < 0x8000_0000
    ensures r == Combine(old(hash[0]), old(hash[1]) / 2 * 2 + 1, old(hash[2]), old(hash[3]) / 2)
  {
    var id := hash;
    id[3] := id[3] / 2;
    id[1] := if id[1] % 2 == 0 then id[1] + 1 else id[1];
    r := Combine(hash[0], hash[1], hash[2], hash[3]);
  }

  lemma {:induction false} LastByte(x: nat, p: nat, y: nat, q: nat)
    requires Byte(p) && Byte(q)
    ensures x * 0x100 + p == y * 0x100 + q <==> x == y && p == q
  {}

  lemma {:induction false} CombineIsInjective(a0: nat, a1: nat, a2: nat, a3: nat, b0: nat, b1: nat, b2: nat, b3: nat)
    requires Byte(a0) && Byte(a1) && Byte(a2) && Byte(b0) && Byte(b1) && Byte(b2)
    ensures Combine(a0, a1, a2, a3) == Combine(b0, b1, b2, b3) <==> a0 == b0 && a1 == b1 && a2 == b2 && a3 == b3
  {
    LastByte((a3 * 0x100 + a2) * 0x100 + a1, a0, (b3 * 0x100 + b2) * 0x100 + b1, b0);
    LastByte(a3 * 0x100 + a2, a1, b3 * 0x100 + b2, b1);
    LastByte(a3, a2, b3, b2);
  }

  /** Two names share a table exactly when their hashes agree in all but the two bits that are overwritten. */
  lemma {:induction false} SameIdentifierIff(a: seq<nat>, b: seq<nat>)
    requires |a| == 4 && |b| == 4 && forall i :: 0 <= i < 4 ==> Byte(a[i]) && Byte(b[i])
    ensures Combine(a[0], a[1] / 2 * 2 + 1, a[2], a[3] / 2) == Combine(b[0], b[1] / 2 * 2 + 1, b[2], b[3] / 2)
            <==> a[0] == b[0] && a[1] / 2 == b[1] / 2 && a[2] == b[2] && a[3] / 2 == b[3] / 2
  {
    CombineIsInjective(a[0], a[1] / 2 * 2 + 1, a[2], a[3] / 2, b[0], b[1] / 2 * 2 + 1, b[2], b[3] / 2);
  }

  class Registry {
    /** The lines of the file; a missing file reads as no lines and is created by the first write. */
    var lines: seq<string>

    constructor () ensures lines == [] { lines := []; }

    method ExistsTableID(id: nat) returns (r: bool)
      ensures r == Registered(lines, id)
    {
      var i := 0;
      while i < |lines|
        invariant i <= |lines| && forall j :: 0 <= j < i ==> !Mentions(lines[j], id)
      {
        if Mentions(lines[i], id) { return true; }
        i := i + 1;
      }
      r := false;
    }

    method EnsureTablePresence(id: nat, name: string)
      modifies this
      ensures lines == Present(old(lines), id, name) && Registered(lines, id)
    {
      var there := ExistsTableID(id);
      if !there {
        EntryMentions(id, name);
        lines := lines + [Entry(id, name)];
        assert Mentions(lines[|lines| - 1], id);
      }
    }

    method DeleteTableID(id: nat)
      modifies this
      ensures lines == Without(old(lines), id)
    {
      var kept: seq<string> := [];
      var i := 0;
      while i < |lines|
        invariant i <= |lines| && lines == old(lines) && kept == Without(lines[..i], id)
      {
        WithoutAppend(lines[..i], [lines[i]], id);
        assert lines[..i + 1] == lines[..i] + [lines[i]];
        if !Mentions(lines[i], id) { kept := kept + [lines[i]]; }
        i := i + 1;
      }
      assert lines[..i] == lines;
      lines := kept;
    }

    method EnsureTableAbsence(id: nat)
      modifies this
      ensures lines == Without(old(lines), id)
    {
      var there := ExistsTableID(id);
      WithoutUnregistered(lines, id);
      if there { DeleteTableID(id); }
    }
  }
}
