/** Item identifiers are Python strings. This module gives them Python's
    ordering (for the sorted antecedent and consequent tuples of a rule) and
    models the parsing of one `items` field into a set of item ids
    (models/market_basket.py, line 15). */
module Items {

  import opened Sets

  /** Python's `<` on `str`: lexicographic by code point; a proper prefix is smaller. */
  predicate Less(a: string, b: string)
  {
    if a == [] then b != []
    else if b == [] then false
    else if a[0] != b[0] then a[0] < b[0]
    else Less(a[1..], b[1..])
  }

  lemma {:induction false} LessIrreflexive(a: string)
    ensures !Less(a, a)
  {
    if a != [] {
      LessIrreflexive(a[1..]);
    }
  }

  lemma {:induction false} LessTransitive(a: string, b: string, c: string)
    requires Less(a, b) && Less(b, c)
    ensures Less(a, c)
  {
    if a != [] && b != [] && c != [] && a[0] == b[0] && b[0] == c[0] {
      LessTransitive(a[1..], b[1..], c[1..]);
    }
  }

  /** Any two different strings are ordered one way, and never both ways. */
  lemma {:induction false} LessTotal(a: string, b: string)
    ensures a != b <==> Less(a, b) || Less(b, a)
    ensures !(Less(a, b) && Less(b, a))
  {
    if a != [] && b != [] && a[0] == b[0] {
      LessTotal(a[1..], b[1..]);
      if a[1..] == b[1..] {
        assert a == [a[0]] + a[1..] && b == [b[0]] + b[1..];
      }
    } else if a == [] && b == [] {
    } else if a != [] && b != [] {
      assert a != b;
    }
  }

  /** Ascending order with no repeats, as `tuple(sorted(A))` gives for a set `A`. */
  predicate StrictlySorted(xs: seq<string>)
  {
    forall i, j :: 0 <= i < j < |xs| ==> Less(xs[i], xs[j])
  }

  /** Inserting a new string into an ascending sequence at its place. */
  function Insert(x: string, xs: seq<string>): (r: seq<string>)
    requires StrictlySorted(xs) && x !in xs
    ensures StrictlySorted(r) && Elems(r) == Elems(xs) + {x} && |r| == |xs| + 1
  {
    if xs == [] then [x]
    else if Less(x, xs[0]) then
      assert forall j :: 0 < j < |xs| ==> Less(x, xs[j]) by {
        forall j | 0 < j < |xs| ensures Less(x, xs[j]) {
          LessTransitive(x, xs[0], xs[j]);
        }
      }
      [x] + xs
    else
      LessTotal(x, xs[0]);
      var tail := Insert(x, xs[1..]);
      assert forall y :: y in Elems(tail) ==> Less(xs[0], y);
      assert forall j :: 0 <= j < |tail| ==> tail[j] in Elems(tail);
      [xs[0]] + tail
  }

  /** `sorted(A)` for a set of item ids: its elements in ascending order. */
  method SortedItems(a: set<string>) returns (xs: seq<string>)
    ensures StrictlySorted(xs) && Elems(xs) == a && |xs| == |a|
  {
    xs := [];
    var rest := a;
    while rest != {}
      invariant Elems(xs) + rest == a && Elems(xs) !! rest
      invariant StrictlySorted(xs)
      invariant |xs| + |rest| == |a|
    {
      var x :| x in rest;
      xs := Insert(x, xs);
      rest := rest - {x};
    }
  }

  /** The sorted tuple of a set is unique: two ascending sequences with the
      same elements are equal. */
  lemma {:induction false} SortedUnique(a: seq<string>, b: seq<string>)
    requires StrictlySorted(a) && StrictlySorted(b) && Elems(a) == Elems(b)
    ensures a == b
  {
    if a != [] {
      assert a[0] in Elems(b) && b != [];
      assert b[0] in Elems(a);
      var i :| 0 <= i < |b| && b[i] == a[0];
      var j :| 0 <= j < |a| && a[j] == b[0];
      if a[0] != b[0] {
        assert i > 0 && j > 0;
        LessTotal(a[0], b[0]);
        assert false;
      }
      forall y ensures y in Elems(a[1..]) <==> y in Elems(b[1..]) {
        if y in Elems(a[1..]) {
          var p :| 0 < p < |a| && a[p] == y;
          LessIrreflexive(y);
        }
        if y in Elems(b[1..]) {
          var p :| 0 < p < |b| && b[p] == y;
          LessIrreflexive(y);
        }
        assert y in Elems(a) <==> y in Elems(b);
        assert Elems(a) == Elems(a[1..]) + {a[0]} by { assert a == [a[0]] + a[1..]; }
        assert Elems(b) == Elems(b[1..]) + {b[0]} by { assert b == [b[0]] + b[1..]; }
      }
      SortedUnique(a[1..], b[1..]);
      assert a == [a[0]] + a[1..] && b == [b[0]] + b[1..];
    } else {
      ElemsEmpty(b);
    }
  }

  /** Python's `str.isspace`: the characters `str.strip()` removes by default. */
  predicate IsSpace(c: char)
  {
    || c == ' '
    || '\t' <= c <= '\r'
    || '\U{1C}' <= c <= '\U{1F}'
    || c == '\U{85}' || c == '\U{A0}' || c == '\U{1680}'
    || '\U{2000}' <= c <= '\U{200A}'
    || c == '\U{2028}' || c == '\U{2029}' || c == '\U{202F}' || c == '\U{205F}' || c == '\U{3000}'
  }

  function TrimLeft(s: string): string
  {
    if s != [] && IsSpace(s[0]) then TrimLeft(s[1..]) else s
  }

  function TrimRight(s: string): string
  {
    if s != [] && IsSpace(s[|s| - 1]) then TrimRight(s[..|s| - 1]) else s
  }

  /** `str.strip()`: the string without its leading and trailing whitespace. */
  function Strip(s: string): string
  {
    TrimRight(TrimLeft(s))
  }

  /** `TrimLeft` drops a whitespace prefix of length `i` and leaves a string
      that does not start with whitespace. */
  lemma {:induction false} TrimLeftSpec(s: string) returns (i: nat)
    ensures i <= |s| && TrimLeft(s) == s[i..]
    ensures forall k :: 0 <= k < i ==> IsSpace(s[k])
    ensures TrimLeft(s) != [] ==> !IsSpace(TrimLeft(s)[0])
  {
    if s != [] && IsSpace(s[0]) {
      var i' := TrimLeftSpec(s[1..]);
      i := i' + 1;
      assert TrimLeft(s) == s[i..];
      forall k | 0 < k < i ensures IsSpace(s[k]) {
        assert s[k] == s[1..][k - 1];
      }
    } else {
      i := 0;
    }
  }

  /** `TrimRight` drops a whitespace suffix, keeping the first `j` characters,
      and leaves a string that does not end with whitespace. */
  lemma {:induction false} TrimRightSpec(s: string) returns (j: nat)
    ensures j <= |s| && TrimRight(s) == s[..j]
    ensures forall k :: j <= k < |s| ==> IsSpace(s[k])
    ensures TrimRight(s) != [] ==> !IsSpace(TrimRight(s)[|TrimRight(s)| - 1])
  {
    if s != [] && IsSpace(s[|s| - 1]) {
      var init := s[..|s| - 1];
      j := TrimRightSpec(init);
      assert TrimRight(s) == s[..j];
      forall k | j <= k < |init| ensures IsSpace(s[k]) {
        assert s[k] == init[k];
      }
    } else {
      j := |s|;
    }
  }

  /** `s.strip()` is the piece `s[i..j]` of `s` with only whitespace around
      it, and it neither starts nor ends with whitespace. */
  lemma StripSpec(s: string) returns (i: nat, j: nat)
    ensures i <= j <= |s| && Strip(s) == s[i..j]
    ensures forall k :: 0 <= k < i ==> IsSpace(s[k])
    ensures forall k :: j <= k < |s| ==> IsSpace(s[k])
    ensures Strip(s) != [] ==> !IsSpace(Strip(s)[0]) && !IsSpace(Strip(s)[|Strip(s)| - 1])
  {
    i := TrimLeftSpec(s);
    var t := s[i..];
    var m := TrimRightSpec(t);
    j := i + m;
    assert Strip(s) == s[i..j];
    forall k | j <= k < |s| ensures IsSpace(s[k]) {
      assert s[k] == t[k - i];
    }
    if Strip(s) != [] {
      assert Strip(s)[0] == TrimLeft(s)[0];
    }
  }

  /** Stripping only removes characters, never adds them. */
  lemma StripChars(s: string, c: char)
    requires c in Strip(s)
    ensures c in s
  {
    var i, j := StripSpec(s);
    var k :| 0 <= k < |Strip(s)| && Strip(s)[k] == c;
    assert s[i + k] == c;
  }

  /** `s.split(sep)`: the pieces between occurrences of `sep`, keeping empty
      pieces; the empty string gives one empty piece. */
  function Split(s: string, sep: char): (pieces: seq<string>)
    ensures |pieces| >= 1
  {
    if s == [] then [[]]
    else
      var rest := Split(s[1..], sep);
      if s[0] == sep then [[]] + rest
      else [[s[0]] + rest[0]] + rest[1..]
  }

  /** `sep.join(pieces)`. */
  function Join(pieces: seq<string>, sep: char): string
    requires |pieces| >= 1
  {
    if |pieces| == 1 then pieces[0] else pieces[0] + [sep] + Join(pieces[1..], sep)
  }

  /** No piece contains the separator, and joining the pieces back with the
      separator gives the original string. */
  lemma {:induction false} SplitJoin(s: string, sep: char)
    ensures forall p :: p in Split(s, sep) ==> sep !in p
    ensures Join(Split(s, sep), sep) == s
  {
    if s != [] {
      SplitJoin(s[1..], sep);
      var rest := Split(s[1..], sep);
      if s[0] == sep {
        assert Split(s, sep)[1..] == rest;
      } else {
        var pieces := Split(s, sep);
        assert pieces[1..] == rest[1..];
        assert rest[0] in rest;
        if |rest| == 1 {
          assert Join(pieces, sep) == [s[0]] + rest[0];
        } else {
          assert Join(rest, sep) == rest[0] + [sep] + Join(rest[1..], sep);
          assert Join(pieces, sep) == [s[0]] + rest[0] + [sep] + Join(rest[1..], sep);
        }
        assert s == [s[0]] + s[1..];
      }
    }
  }

  /** The item ids of one `items` field (line 15): the stripped `;`-pieces
      that are not empty, as a set, so duplicates collapse. */
  function ParseItems(field: string): set<string>
  {
    set p | p in Split(field, ';') && Strip(p) != [] :: Strip(p)
  }

  /** One non-blank piece of a field, stripped, is a well-formed item id. */
  lemma ParsedPiece(field: string, p: string)
    requires p in Split(field, ';') && Strip(p) != []
    ensures var x := Strip(p); ';' !in x && !IsSpace(x[0]) && !IsSpace(x[|x| - 1])
  {
    SplitJoin(field, ';');
    var i, j := StripSpec(p);
    if ';' in Strip(p) {
      StripChars(p, ';');
    }
  }

  /** Every parsed item id is non-empty, contains no `;`, and has no
      leading or trailing whitespace; and every non-blank piece of the field
      gives one. */
  lemma ParseItemsSpec(field: string)
    ensures forall x :: x in ParseItems(field) ==>
              x != [] && ';' !in x && !IsSpace(x[0]) && !IsSpace(x[|x| - 1])
    ensures forall p :: p in Split(field, ';') && Strip(p) != [] ==> Strip(p) in ParseItems(field)
  {
    forall x | x in ParseItems(field)
      ensures x != [] && ';' !in x && !IsSpace(x[0]) && !IsSpace(x[|x| - 1])
    {
      var p :| p in Split(field, ';') && Strip(p) != [] && Strip(p) == x;
      ParsedPiece(field, p);
    }
  }

  /** `r.get("items", "")`: the `items` column of a record, empty when absent. */
  function ItemsField(record: map<string, string>): string
  {
    if "items" in record then record["items"] else ""
  }

  /** The transactions the records describe: one parsed item set per record. */
  function Transactions(records: seq<map<string, string>>): (tx: seq<set<string>>)
    ensures |tx| == |records|
  {
    seq(|records|, i requires 0 <= i < |records| => ParseItems(ItemsField(records[i])))
  }

  /** `parse_transactions` after loading (lines 13-17): one item set per
      record, in record order. */
  method ParseTransactions(records: seq<map<string, string>>) returns (tx: seq<set<string>>)
    ensures |tx| == |records|
    ensures forall i :: 0 <= i < |records| ==> tx[i] == ParseItems(ItemsField(records[i]))
    ensures tx == Transactions(records)
  {
    tx := [];
    for i := 0 to |records|
      invariant |tx| == i
      invariant forall k :: 0 <= k < i ==> tx[k] == ParseItems(ItemsField(records[k]))
    {
      var items := ParseItems(ItemsField(records[i]));
      tx := tx + [items];
    }
  }
}
