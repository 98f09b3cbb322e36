/** The objects that hold maps: which keys are array indices, in which order keys are listed, and
    what an assignment leaves where. */
module Objects {
  import opened Options
  import opened Words
  import opened Schemas
  import opened Encoding
  import opened Projection
  import Utf8

  /** A number as JavaScript prints it. */
  function DecimalText(n: nat): (k: Utf8.Text)
    ensures k != []
  {
    if n < 10 then [0x30 + n] else DecimalText(n / 10) + [0x30 + n % 10]
  }

  lemma {:induction false} TextIsDecimal(n: nat)
    ensures var k := DecimalText(n);
      Digits(k) && Decimal(k) == n && (k[0] == 0x30 ==> n == 0) && (n < 10 <==> |k| == 1)
  {
    if n >= 10 {
      TextIsDecimal(n / 10);
      var k := DecimalText(n / 10);
      assert DecimalText(n)[..|k|] == k;
    } else {
      assert DecimalText(n)[..0] == [];
    }
  }

  lemma {:induction false} DecimalIsText(k: Utf8.Text)
    requires k != [] && Digits(k) && (|k| == 1 || k[0] != 0x30)
    ensures DecimalText(Decimal(k)) == k
    decreases |k|
  {
    var rest := k[..|k| - 1];
    if |k| == 1 {
      assert Decimal(rest) == 0;
    } else {
      DecimalIsText(rest);
      TextIsDecimal(Decimal(rest));
      assert Decimal(rest) > 0;
      assert Decimal(k) / 10 == Decimal(rest) && Decimal(k) % 10 == k[|k| - 1] - 0x30;
      assert rest + [k[|k| - 1]] == k;
    }
  }

  /** A key is an array index if and only if it is the printed form of a number below 2^32 - 1. */
  lemma IndexExactly(k: Utf8.Text, n: nat)
    ensures IndexOf(k) == Some(n) <==> n < U32 - 1 && k == DecimalText(n)
  {
    TextIsDecimal(n);
    if IndexOf(k) == Some(n) {
      DecimalIsText(k);
    }
  }

  /** `o[k]` for an own property. */
  function EntryAt(es: seq<KeyValue>, k: Utf8.Text): Option<Value> {
    if es == [] then None else if es[0].key == k then Some(es[0].v) else EntryAt(es[1..], k)
  }

  /** An assignment changes the one key and no other. */
  lemma {:induction false} PutEntryAt(es: seq<KeyValue>, k: Utf8.Text, v: Value, other: Utf8.Text)
    ensures EntryAt(PutEntry(es, k, v), other) == if other == k then Some(v) else EntryAt(es, other)
  {
    hide Jumps;
    if es != [] {
      PutEntryAt(es[1..], k, v, other);
      assert ([KeyValue(k, v)] + es)[1..] == es;
      assert ([KeyValue(k, v)] + es[1..])[1..] == es[1..];
      assert ([es[0]] + PutEntry(es[1..], k, v))[1..] == PutEntry(es[1..], k, v);
    } else {
      assert [KeyValue(k, v)][1..] == [];
    }
  }

  lemma {:induction false} LeadsAt(k: Utf8.Text, es: seq<KeyValue>)
    ensures Leads(k, es) <==> forall j :: 0 <= j < |es| ==> es[j].key != k && !Jumps(es[j].key, k)
  {
    hide Jumps;
    if es != [] {
      LeadsAt(k, es[1..]);
      assert forall j :: 0 < j < |es| ==> es[j] == es[1..][j - 1];
    }
  }

  /** What is listed: array indices in ascending order before all other keys, and no key twice. */
  lemma {:induction false} ListedAt(es: seq<KeyValue>, i: nat, j: nat)
    requires Listed(es) && i < j < |es|
    ensures es[i].key != es[j].key
    ensures var a, b := IndexOf(es[i].key), IndexOf(es[j].key);
            b.Some? ==> a.Some? && a.value < b.value
  {
    hide IndexOf;
    var a, b := IndexOf(es[i].key), IndexOf(es[j].key);
    if a.Some? && a == b {
      IndexExactly(es[i].key, a.value);
      IndexExactly(es[j].key, a.value);
    }
    if i == 0 {
      LeadsAt(es[0].key, es[1..]);
      assert es[j] == es[1..][j - 1];
    } else {
      ListedAt(es[1..], i - 1, j - 1);
    }
  }

  lemma {:induction false} LeadsPut(first: Utf8.Text, es: seq<KeyValue>, k: Utf8.Text, v: Value)
    requires Leads(first, es) && first != k && !Jumps(k, first)
    ensures Leads(first, PutEntry(es, k, v))
  {
    hide Jumps;
    if es != [] {
      LeadsPut(first, es[1..], k, v);
      assert ([KeyValue(k, v)] + es)[1..] == es;
      assert ([KeyValue(k, v)] + es[1..])[1..] == es[1..];
      assert ([es[0]] + PutEntry(es[1..], k, v))[1..] == PutEntry(es[1..], k, v);
    } else {
      assert [KeyValue(k, v)][1..] == [];
    }
  }

  lemma JumpLeads(first: Utf8.Text, es: seq<KeyValue>, k: Utf8.Text)
    requires Leads(first, es) && Jumps(k, first)
    ensures Leads(k, es)
  {
    hide Leads, IndexOf;
    LeadsAt(first, es);
    LeadsAt(k, es);
  }

  /** Assignments keep the order in which keys are listed. */
  lemma {:induction false} PutKeepsListed(es: seq<KeyValue>, k: Utf8.Text, v: Value)
    requires Listed(es)
    ensures Listed(PutEntry(es, k, v))
  {
    if es == [] {
      assert [KeyValue(k, v)][1..] == [];
    } else if es[0].key == k {
      assert ([KeyValue(k, v)] + es[1..])[1..] == es[1..];
    } else if Jumps(k, es[0].key) {
      JumpLeads(es[0].key, es[1..], k);
      assert ([KeyValue(k, v)] + es)[1..] == es;
    } else {
      LeadsPut(es[0].key, es[1..], k, v);
      PutKeepsListed(es[1..], k, v);
      assert ([es[0]] + PutEntry(es[1..], k, v))[1..] == PutEntry(es[1..], k, v);
    }
  }

  /** `__proto__` never becomes an own key, and an own key never touches the prototype. */
  lemma PutKeyExactly(p: Prop, k: Utf8.Text, v: Value, other: Utf8.Text)
    requires p.Dict?
    ensures var r := PutKey(p, k, v);
      && r.proto == (if k == PROTO && (v.Msg? || v.Raw?) then Some(v) else p.proto)
      && EntryAt(r.entries, other) == if other == k && k != PROTO then Some(v) else EntryAt(p.entries, other)
  {
    PutEntryAt(p.entries, k, v, other);
  }
}
