/** The header row: normalize, buildHeaderMap and getColIndex, and how the
    script finds its status column, its event-date column and the columns of
    the message fields. */
module Headers {
  import opened Text
  import opened Wrappers

  /** normalize(s): trimmed and lower-cased. A normalised name has no
      surrounding white space and no upper-case letter, and is empty exactly
      for a blank header. */
  function Normalize(s: string): (r: string)
    ensures Trimmed(r) && IsLower(r)
    ensures r == "" <==> AllSpace(s)
  {
    CaseKeepsSpace(Trim(s));
    LowerIsLower(Trim(s));
    Lower(Trim(s))
  }

  lemma NormalizeIdempotent(s: string)
    ensures Normalize(Normalize(s)) == Normalize(s)
  {
    var r := Normalize(s);
    TrimOfTrimmed(r);
    LowerOfLower(r);
  }

  /** Header names that differ only in surrounding white space and letter case
      are the same key. */
  lemma NormalizeIgnoresSpaceAndCase(ws1: string, h: string, ws2: string)
    requires AllSpace(ws1) && AllSpace(ws2) && Trimmed(h)
    ensures Normalize(ws1 + Upper(h) + ws2) == Normalize(h)
  {
    CaseKeepsSpace(h);
    assert Trim(ws1 + Upper(h) + ws2) == Upper(h) by { TrimAround(ws1, Upper(h), ws2); }
    assert Trim(h) == h by { TrimOfTrimmed(h); }
    LowerOfUpper(h);
  }

  /** The key of every header, normalize(String(h)), in column order. */
  function Keys(headers: seq<string>): (ks: seq<string>)
    ensures |ks| == |headers|
  {
    seq(|headers|, j requires 0 <= j < |headers| => Normalize(headers[j]))
  }

  /** keys[j], the key entered for column j + 1. */
  function KeyAt(keys: seq<string>, j: nat): string
    requires j < |keys|
  {
    keys[j]
  }

  /** The map of keys to 1-based columns that entering the keys one after
      another builds: every key is in it, mapped to a column that carries it. */
  function ColumnMap(keys: seq<string>): (m: map<string, nat>)
    ensures forall k :: k in m ==> 1 <= m[k] <= |keys| && keys[m[k] - 1] == k
    ensures forall j :: 0 <= j < |keys| ==> KeyAt(keys, j) in m
  {
    if keys == [] then map[]
    else
      var last := |keys| - 1;
      var prev := keys[..last];
      var m := ColumnMap(prev);
      var r := m[keys[last] := last + 1];
      assert forall k :: k in r ==> 1 <= r[k] <= |keys| && keys[r[k] - 1] == k by {
        forall k | k in r
          ensures 1 <= r[k] <= |keys| && keys[r[k] - 1] == k
        {
          if k != keys[last] { assert keys[m[k] - 1] == prev[m[k] - 1]; }
        }
      }
      assert forall j :: 0 <= j < |keys| ==> KeyAt(keys, j) in r by {
        forall j | 0 <= j < |keys|
          ensures KeyAt(keys, j) in r
        {
          if j < last { assert keys[j] == prev[j]; assert KeyAt(prev, j) in m; }
        }
      }
      r
  }

  /** When a key occurs twice, the later column wins. */
  lemma {:induction false} ColumnMapLastWins(keys: seq<string>, j: nat)
    requires j < |keys|
    ensures j < ColumnMap(keys)[KeyAt(keys, j)]
  {
    var last := |keys| - 1;
    if j < last && keys[j] != keys[last] {
      var prev := keys[..last];
      assert prev[j] == keys[j];
      ColumnMapLastWins(prev, j);
    }
  }

  /** The map buildHeaderMap returns. */
  function HeaderMapOf(headers: seq<string>): map<string, nat> {
    ColumnMap(Keys(headers))
  }

  /** buildHeaderMap(headers): headers.forEach((h, i) => map[normalize(h)] = i + 1). */
  method BuildHeaderMap(headers: seq<string>) returns (m: map<string, nat>)
    ensures m == HeaderMapOf(headers)
  {
    ghost var keys := Keys(headers);
    m := map[];
    var i := 0;
    while i < |headers|
      invariant 0 <= i <= |headers|
      invariant m == ColumnMap(keys[..i])
    {
      ColumnMapExtend(keys, i);
      m := m[Normalize(headers[i]) := i + 1];
      i := i + 1;
    }
    assert keys[..i] == keys;
  }

  /** Entering one more key adds it, mapped to its 1-based column. */
  lemma ColumnMapExtend(keys: seq<string>, i: nat)
    requires i < |keys|
    ensures ColumnMap(keys[..i + 1]) == ColumnMap(keys[..i])[keys[i] := i + 1]
  {
    assert keys[..i + 1][..i] == keys[..i];
  }

  datatype HeaderError =
    | HeaderNotFound(header: string)
    | EventDateColumnMissing(header: string)

  /** getColIndex(headerMap, name): the 0-based index of the column named name,
      an error when there is none (a missing key and a column of 0 are alike). */
  function GetColIndex(m: map<string, nat>, name: string): (r: Result<nat, HeaderError>)
    ensures r.Ok? <==> Normalize(name) in m && m[Normalize(name)] != 0
    ensures r.Ok? ==> r.value + 1 == m[Normalize(name)]
    ensures r.Err? ==> r.error == HeaderNotFound(name)
  {
    var key := Normalize(name);
    if key in m && m[key] != 0 then Ok(m[key] - 1) else Err(HeaderNotFound(name))
  }

  /** j is the last 0-based column whose key is key. */
  predicate IsLastColumn(keys: seq<string>, key: string, j: nat) {
    j < |keys| && KeyAt(keys, j) == key && forall j' :: j < j' < |keys| ==> KeyAt(keys, j') != key
  }

  /** On a column map, and so on the map of a header row (whose keys are
      Keys(headers)), getColIndex finds the last column whose key is the name's,
      and fails exactly when there is none. */
  lemma ColIndexOfKeys(keys: seq<string>, name: string)
    ensures GetColIndex(ColumnMap(keys), name).Err? <==> Normalize(name) !in keys
    ensures GetColIndex(ColumnMap(keys), name).Ok? ==>
            IsLastColumn(keys, Normalize(name), GetColIndex(ColumnMap(keys), name).value)
  {
    var m := ColumnMap(keys);
    var key := Normalize(name);
    if key in keys {
      var j :| 0 <= j < |keys| && keys[j] == key;
      assert KeyAt(keys, j) in m;
    }
    if key in m {
      assert KeyAt(keys, m[key] - 1) == key;
      forall j' | m[key] - 1 < j' < |keys|
        ensures KeyAt(keys, j') != key
      {
        ColumnMapLastWins(keys, j');
      }
    }
  }

  /** The header names of the six message fields, FIELDS in the script. */
  datatype FieldNames = FieldNames(emailAddress: string, any: string, other: string,
                                   column: string, you: string, need: string)

  const Fields := FieldNames("Email Address", "Any", "Other", "Column", "You", "Need")

  /** The 0-based column of each field, idx in the script. */
  datatype FieldIndex = FieldIndex(emailAddress: nat, any: nat, other: nat,
                                   column: nat, you: nat, need: nat)

  /** The status column as sendD1D0 settles it: the column of the status header,
      or else a new column after the last one, which is then entered in the map
      (and its header written to the sheet, the `added` flag). */
  datatype StatusColumn = StatusColumn(col: nat, headerMap: map<string, nat>, added: bool)

  function SettleStatusColumn(m: map<string, nat>, lastCol: nat, statusHeader: string): (r: StatusColumn)
    ensures r.col >= 1
    ensures r.headerMap == m[Normalize(statusHeader) := r.col]
    ensures !r.added <==> Normalize(statusHeader) in m && m[Normalize(statusHeader)] != 0
    ensures !r.added ==> r.col == m[Normalize(statusHeader)]
    ensures r.added ==> r.col == lastCol + 1
  {
    var key := Normalize(statusHeader);
    if key in m && m[key] != 0 then StatusColumn(m[key], m, false)
    else StatusColumn(lastCol + 1, m[key := lastCol + 1], true)
  }

  /** Where everything is: 1-based status and event-date columns, the field
      columns, the number of columns read (effectiveLastCol), and whether the
      status header had to be added. */
  datatype Layout = Layout(statusCol: nat, eventDateCol: nat, idx: FieldIndex,
                           width: nat, addedStatusHeader: bool)

  /** The six field names in the order the script looks them up. */
  function FieldOrder(names: FieldNames): seq<string> {
    [names.emailAddress, names.any, names.other, names.column, names.you, names.need]
  }

  /** order[k] is the first name of order that the map does not resolve. */
  predicate FirstMissing(m: map<string, nat>, order: seq<string>, k: nat) {
    k < |order| && GetColIndex(m, order[k]).Err? && forall j :: 0 <= j < k ==> GetColIndex(m, order[j]).Ok?
  }

  /** The field lookups, in the script's order; the first missing one fails. */
  function FieldColumns(m: map<string, nat>, names: FieldNames): (r: Result<FieldIndex, HeaderError>)
    ensures r.Ok? <==> GetColIndex(m, names.emailAddress).Ok? && GetColIndex(m, names.any).Ok? &&
                       GetColIndex(m, names.other).Ok? && GetColIndex(m, names.column).Ok? &&
                       GetColIndex(m, names.you).Ok? && GetColIndex(m, names.need).Ok?
    ensures r.Ok? ==> r.value == FieldIndex(GetColIndex(m, names.emailAddress).value,
                                            GetColIndex(m, names.any).value,
                                            GetColIndex(m, names.other).value,
                                            GetColIndex(m, names.column).value,
                                            GetColIndex(m, names.you).value,
                                            GetColIndex(m, names.need).value)
    ensures r.Err? ==> exists k: nat :: FirstMissing(m, FieldOrder(names), k) && r.error == HeaderNotFound(FieldOrder(names)[k])
  {
    var order := FieldOrder(names);
    assert order[0] == names.emailAddress && order[1] == names.any && order[2] == names.other &&
           order[3] == names.column && order[4] == names.you && order[5] == names.need;
    AllOfSix(order, name => GetColIndex(m, name).Ok?);
    var cols :- LookupAll(m, order);
    Ok(FieldIndex(cols[0], cols[1], cols[2], cols[3], cols[4], cols[5]))
  }

  /** A property holds of all six elements exactly when it holds of each. */
  lemma AllOfSix<T>(s: seq<T>, p: T -> bool)
    requires |s| == 6
    ensures (forall k :: 0 <= k < |s| ==> p(s[k])) <==>
            p(s[0]) && p(s[1]) && p(s[2]) && p(s[3]) && p(s[4]) && p(s[5])
  {
    if p(s[0]) && p(s[1]) && p(s[2]) && p(s[3]) && p(s[4]) && p(s[5]) {
      forall k | 0 <= k < |s|
        ensures p(s[k])
      {
        if k == 0 {} else if k == 1 {} else if k == 2 {} else if k == 3 {} else if k == 4 {} else {}
      }
    }
  }

  /** getColIndex on each name of order in turn, stopping at the first
      missing one. */
  function LookupAll(m: map<string, nat>, order: seq<string>): (r: Result<seq<nat>, HeaderError>)
    ensures r.Ok? <==> forall k :: 0 <= k < |order| ==> GetColIndex(m, order[k]).Ok?
    ensures r.Ok? ==> |r.value| == |order| &&
                      forall k :: 0 <= k < |order| ==> GetColIndex(m, order[k]) == Ok(r.value[k])
    ensures r.Err? ==> exists k: nat :: FirstMissing(m, order, k) && r.error == HeaderNotFound(order[k])
    decreases |order|
  {
    if order == [] then Ok([])
    else
      match GetColIndex(m, order[0])
      case Err(e) =>
        assert FirstMissing(m, order, 0);
        Err(e)
      case Ok(c) =>
        LookupShift(m, order);
        match LookupAll(m, order[1..])
        case Err(e) => Err(e)
        case Ok(rest) => Ok([c] + rest)
  }

  /** Once order[0] resolves, the lookups of order are those of order[1..],
      one place later. */
  lemma LookupShift(m: map<string, nat>, order: seq<string>)
    requires |order| > 0 && GetColIndex(m, order[0]).Ok?
    ensures forall k: nat :: FirstMissing(m, order[1..], k) ==> FirstMissing(m, order, k + 1)
    ensures (forall k :: 0 <= k < |order| - 1 ==> GetColIndex(m, order[1..][k]).Ok?) ==>
            forall k :: 0 <= k < |order| ==> GetColIndex(m, order[k]).Ok?
  {
    var ok := name => GetColIndex(m, name).Ok?;
    forall k: nat | FirstMissing(m, order[1..], k)
      ensures FirstMissing(m, order, k + 1)
    {
      ShiftedBy<string>(ok, order, k + 1);
    }
    ShiftedBy<string>(ok, order, |order|);
  }

  /** When s[0] satisfies ok, s[..n] all satisfy it exactly when
      s[1..][..n - 1] do, and s[n] is s[1..][n - 1]. */
  lemma ShiftedBy<T>(ok: T -> bool, s: seq<T>, n: nat)
    requires 0 < n <= |s| && ok(s[0])
    ensures (forall j :: 0 <= j < n ==> ok(s[j])) <==> (forall j :: 0 <= j < n - 1 ==> ok(s[1..][j]))
    ensures n < |s| ==> s[n] == s[1..][n - 1]
  {
    if forall j :: 0 <= j < n - 1 ==> ok(s[1..][j]) {
      forall j | 0 <= j < n
        ensures ok(s[j])
      {
        if j > 0 {
          assert s[j] == s[1..][j - 1];
        }
      }
    }
  }

  /** The number of columns the script reads: the header row, widened to the
      status column when that one is new. */
  function Width(headers: seq<string>, sc: StatusColumn): nat {
    if |headers| < sc.col then sc.col else |headers|
  }

  /** Every column of the settled map is one of the columns read. */
  lemma SettledColumnsRead(headers: seq<string>, statusHeader: string)
    ensures var sc := SettleStatusColumn(HeaderMapOf(headers), |headers|, statusHeader);
            forall k :: k in sc.headerMap ==> 1 <= sc.headerMap[k] <= Width(headers, sc)
  {
    var m := HeaderMapOf(headers);
    var sc := SettleStatusColumn(m, |headers|, statusHeader);
    forall k | k in sc.headerMap
      ensures 1 <= sc.headerMap[k] <= Width(headers, sc)
    {
      if k != Normalize(statusHeader) { assert k in m; }
    }
  }

  /** The header part of sendD1D0 for a header row of lastCol = |headers| cells. */
  function ResolveLayout(headers: seq<string>, statusHeader: string, eventDateHeader: string,
                         names: FieldNames): (r: Result<Layout, HeaderError>)
    ensures r.Ok? ==> 1 <= r.value.statusCol <= r.value.width && 1 <= r.value.eventDateCol <= r.value.width
    ensures r.Ok? ==> |headers| <= r.value.width
    ensures r.Ok? ==> r.value.addedStatusHeader == SettleStatusColumn(HeaderMapOf(headers), |headers|, statusHeader).added
    ensures r.Err? && r.error.EventDateColumnMissing? <==>
              Normalize(eventDateHeader) !in SettleStatusColumn(HeaderMapOf(headers), |headers|, statusHeader).headerMap
    ensures r.Ok? ==>
              var sc := SettleStatusColumn(HeaderMapOf(headers), |headers|, statusHeader);
              r.value.statusCol == sc.col && Normalize(eventDateHeader) in sc.headerMap &&
              r.value.eventDateCol == sc.headerMap[Normalize(eventDateHeader)] &&
              FieldColumns(sc.headerMap, names) == Ok(r.value.idx) && r.value.width == Width(headers, sc)
  {
    var sc := SettleStatusColumn(HeaderMapOf(headers), |headers|, statusHeader);
    var width := Width(headers, sc);
    SettledColumnsRead(headers, statusHeader);
    var key := Normalize(eventDateHeader);
    if !(key in sc.headerMap && sc.headerMap[key] != 0) then Err(EventDateColumnMissing(eventDateHeader))
    else
      match FieldColumns(sc.headerMap, names)
      case Err(e) => Err(e)
      case Ok(idx) => Ok(Layout(sc.col, sc.headerMap[key], idx, width, sc.added))
  }

  /** Every field column found is one of the columns the script reads, so
      row[idx.x] is a cell of the row. */
  lemma FieldsWithinWidth(headers: seq<string>, statusHeader: string, eventDateHeader: string, names: FieldNames)
    ensures var r := ResolveLayout(headers, statusHeader, eventDateHeader, names);
            r.Ok? ==> var x := r.value.idx; var w := r.value.width;
                      x.emailAddress < w && x.any < w && x.other < w && x.column < w && x.you < w && x.need < w
  {
    var sc := SettleStatusColumn(HeaderMapOf(headers), |headers|, statusHeader);
    SettledColumnsRead(headers, statusHeader);
    var r := ResolveLayout(headers, statusHeader, eventDateHeader, names);
    if r.Ok? {
      assert r.value.idx == FieldColumns(sc.headerMap, names).value;
    }
  }

  /** The script adds a status column exactly when no header carries the
      status header's name. */
  lemma StatusColumnAdded(headers: seq<string>, statusHeader: string)
    ensures SettleStatusColumn(HeaderMapOf(headers), |headers|, statusHeader).added <==>
            Normalize(statusHeader) !in Keys(headers)
  {
    ColIndexOfKeys(Keys(headers), statusHeader);
  }

  /** The keys of the settled map: those of the header row, then the status
      header's when its column was added after the last one. */
  function SettledKeys(headers: seq<string>, statusHeader: string): seq<string> {
    var sc := SettleStatusColumn(HeaderMapOf(headers), |headers|, statusHeader);
    Keys(headers) + if sc.added then [Normalize(statusHeader)] else []
  }

  /** The settled map is the column map of a header row with the status
      header's cell written into the new column. */
  lemma SettledIsColumnMap(headers: seq<string>, statusHeader: string)
    ensures SettleStatusColumn(HeaderMapOf(headers), |headers|, statusHeader).headerMap ==
            ColumnMap(SettledKeys(headers, statusHeader))
  {
    var m := HeaderMapOf(headers);
    var sc := SettleStatusColumn(m, |headers|, statusHeader);
    var keys := SettledKeys(headers, statusHeader);
    if sc.added {
      assert keys[..|keys| - 1] == Keys(headers);
    } else {
      assert keys == Keys(headers);
      assert m[Normalize(statusHeader) := sc.col] == m;
    }
  }

  /** On the map of a header row, the six field lookups succeed exactly when
      every field's name normalises to some header's key, and each field then
      gets the last column with that key. */
  lemma FieldColumnsOfKeys(keys: seq<string>, names: FieldNames)
    ensures FieldColumns(ColumnMap(keys), names).Ok? <==>
            Normalize(names.emailAddress) in keys && Normalize(names.any) in keys &&
            Normalize(names.other) in keys && Normalize(names.column) in keys &&
            Normalize(names.you) in keys && Normalize(names.need) in keys
    ensures FieldColumns(ColumnMap(keys), names).Ok? ==>
            var x := FieldColumns(ColumnMap(keys), names).value;
            IsLastColumn(keys, Normalize(names.emailAddress), x.emailAddress) &&
            IsLastColumn(keys, Normalize(names.any), x.any) &&
            IsLastColumn(keys, Normalize(names.other), x.other) &&
            IsLastColumn(keys, Normalize(names.column), x.column) &&
            IsLastColumn(keys, Normalize(names.you), x.you) &&
            IsLastColumn(keys, Normalize(names.need), x.need)
  {
    ColIndexOfKeys(keys, names.emailAddress);
    ColIndexOfKeys(keys, names.any);
    ColIndexOfKeys(keys, names.other);
    ColIndexOfKeys(keys, names.column);
    ColIndexOfKeys(keys, names.you);
    ColIndexOfKeys(keys, names.need);
  }

  /** In sendD1D0, every message field's column is the last column of the
      header row (with the status header added when it was new) whose header
      normalises to the field's name. */
  lemma LayoutFieldColumns(headers: seq<string>, statusHeader: string, eventDateHeader: string, names: FieldNames)
    ensures var r := ResolveLayout(headers, statusHeader, eventDateHeader, names);
            var keys := SettledKeys(headers, statusHeader);
            r.Ok? ==> var x := r.value.idx;
                      IsLastColumn(keys, Normalize(names.emailAddress), x.emailAddress) &&
                      IsLastColumn(keys, Normalize(names.any), x.any) &&
                      IsLastColumn(keys, Normalize(names.other), x.other) &&
                      IsLastColumn(keys, Normalize(names.column), x.column) &&
                      IsLastColumn(keys, Normalize(names.you), x.you) &&
                      IsLastColumn(keys, Normalize(names.need), x.need)
  {
    var sc := SettleStatusColumn(HeaderMapOf(headers), |headers|, statusHeader);
    var r := ResolveLayout(headers, statusHeader, eventDateHeader, names);
    SettledIsColumnMap(headers, statusHeader);
    FieldColumnsOfKeys(SettledKeys(headers, statusHeader), names);
    if r.Ok? {
      assert r.value.idx == FieldColumns(sc.headerMap, names).value;
    }
  }

  /** The status header's key is among the settled keys, at the status column. */
  lemma StatusKeySettled(headers: seq<string>, statusHeader: string)
    ensures var sc := SettleStatusColumn(HeaderMapOf(headers), |headers|, statusHeader);
            Normalize(statusHeader) in SettledKeys(headers, statusHeader) &&
            sc.headerMap[Normalize(statusHeader)] == sc.col
  {
    var m := HeaderMapOf(headers);
    var sc := SettleStatusColumn(m, |headers|, statusHeader);
    var keys := SettledKeys(headers, statusHeader);
    var sk := Normalize(statusHeader);
    if sc.added {
      assert keys == Keys(headers) + [sk];
      assert keys[|keys| - 1] == sk;
    } else {
      var ks := Keys(headers);
      assert sk in m && m == ColumnMap(ks);
      var i := m[sk] - 1;
      assert 0 <= i < |ks| && ks[i] == sk;
      assert keys == ks;
    }
  }

  /** The layout of sendD1D0 resolves exactly when the event-date header and
      the six field names each normalise to a header of the settled row (the
      header row, with the status header after the last column when it was
      missing). */
  lemma LayoutResolves(headers: seq<string>, statusHeader: string, eventDateHeader: string, names: FieldNames)
    ensures var keys := SettledKeys(headers, statusHeader);
            ResolveLayout(headers, statusHeader, eventDateHeader, names).Ok? <==>
              Normalize(eventDateHeader) in keys &&
              Normalize(names.emailAddress) in keys && Normalize(names.any) in keys &&
              Normalize(names.other) in keys && Normalize(names.column) in keys &&
              Normalize(names.you) in keys && Normalize(names.need) in keys
  {
    var keys := SettledKeys(headers, statusHeader);
    SettledIsColumnMap(headers, statusHeader);
    FieldColumnsOfKeys(keys, names);
    ColIndexOfKeys(keys, eventDateHeader);
  }

  /** A key of a column map sits at the last column carrying it. */
  lemma LastColumnAt(keys: seq<string>, m: map<string, nat>, key: string, col: nat)
    requires m == ColumnMap(keys) && key in m && m[key] == col
    ensures IsLastColumn(keys, key, col - 1)
  {
    assert KeyAt(keys, col - 1) == key;
    forall j' | col - 1 < j' < |keys|
      ensures KeyAt(keys, j') != key
    {
      ColumnMapLastWins(keys, j');
    }
  }

  /** The settled status column and the settled column of the event-date
      header, which a resolved layout carries, are the last columns of the
      settled row carrying those headers' names. */
  lemma SettledColumnsAreLast(headers: seq<string>, statusHeader: string, eventDateHeader: string,
                              statusCol: nat, eventDateCol: nat)
    requires var sc := SettleStatusColumn(HeaderMapOf(headers), |headers|, statusHeader);
             statusCol == sc.col && Normalize(eventDateHeader) in sc.headerMap &&
             eventDateCol == sc.headerMap[Normalize(eventDateHeader)]
    ensures IsLastColumn(SettledKeys(headers, statusHeader), Normalize(statusHeader), statusCol - 1)
    ensures IsLastColumn(SettledKeys(headers, statusHeader), Normalize(eventDateHeader), eventDateCol - 1)
  {
    var sc := SettleStatusColumn(HeaderMapOf(headers), |headers|, statusHeader);
    var keys := SettledKeys(headers, statusHeader);
    SettledIsColumnMap(headers, statusHeader);
    StatusKeySettled(headers, statusHeader);
    LastColumnAt(keys, sc.headerMap, Normalize(statusHeader), statusCol);
    LastColumnAt(keys, sc.headerMap, Normalize(eventDateHeader), eventDateCol);
  }
}
