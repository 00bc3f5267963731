/**
  Member-column resolution of the batch upload (main.py, batch_upload_process).
  The Expenses sheet has one column per member whose header is "_" followed by
  the member's display name; the Members sheet maps display names to Splitwise
  user IDs. A column resolves to the ID on the FIRST Members row whose Name
  equals the header without its "_".
 */
module Columns {
  import opened Options

  /** A row of the Members sheet, and an entry of the resolved member list. */
  datatype Member = Member(name: string, id: int)

  /** Outcome of resolving the member columns: the resolved list, or the first
      stripped name that has no Members row (the source raises IndexError at
      `values[0]` there and the upload fails). */
  datatype Resolution = Resolved(members: seq<Member>) | UnknownMember(name: string)

  /** The regular expression '^_' on a column header. */
  predicate IsMemberHeader(h: string)
  {
    |h| > 0 && h[0] == '_'
  }

  /** The member columns, in sheet order. */
  function MemberHeaders(headers: seq<string>): (cols: seq<string>)
    ensures |cols| <= |headers|
    ensures forall h :: h in cols <==> h in headers && IsMemberHeader(h)
  {
    if headers == [] then []
    else
      var init := MemberHeaders(headers[..|headers| - 1]);
      var h := headers[|headers| - 1];
      assert forall x :: x in headers <==> x in headers[..|headers| - 1] || x == h;
      if IsMemberHeader(h) then init + [h] else init
  }

  /** Filtering distributes over concatenation: the member columns keep the
      relative order they have in the sheet. */
  lemma {:induction false} MemberHeadersAppend(a: seq<string>, b: seq<string>)
    ensures MemberHeaders(a + b) == MemberHeaders(a) + MemberHeaders(b)
  {
    if b != [] {
      var b' := b[..|b| - 1];
      assert (a + b)[..|a + b| - 1] == a + b';
      MemberHeadersAppend(a, b');
    } else {
      assert a + b == a;
    }
  }

  /** `name[1:]`: the display name a member column stands for. */
  function StripPrefix(h: string): (name: string)
    requires IsMemberHeader(h)
    ensures "_" + name == h
  {
    h[1..]
  }

  /** Index of the first Members row with the given Name, if any. */
  function FirstWithName(table: seq<Member>, name: string): (r: Option<nat>)
    ensures r.Some? ==> r.value < |table| && table[r.value].name == name
    ensures r.Some? ==> forall k :: 0 <= k < r.value ==> table[k].name != name
    ensures r.None? ==> forall k :: 0 <= k < |table| ==> table[k].name != name
  {
    if table == [] then None
    else if table[0].name == name then Some(0)
    else
      match FirstWithName(table[1..], name)
      case None => None
      case Some(k) => Some(k + 1)
  }

  /** The ID the source reads for a member column: `members_df[Name == name]['ID'].values[0]`. */
  predicate ResolvesTo(table: seq<Member>, col: string, m: Member)
    requires IsMemberHeader(col)
  {
    var r := FirstWithName(table, StripPrefix(col));
    r.Some? && m == Member(StripPrefix(col), table[r.value].id)
  }

  predicate Resolvable(table: seq<Member>, col: string)
    requires IsMemberHeader(col)
  {
    FirstWithName(table, StripPrefix(col)).Some?
  }

  /** Builds `members_in_cols` by appending one entry per member column. */
  method ResolveMemberColumns(headers: seq<string>, table: seq<Member>) returns (res: Resolution)
    ensures res.Resolved? ==>
      forall j :: 0 <= j < |MemberHeaders(headers)| ==> Resolvable(table, MemberHeaders(headers)[j])
    ensures res.Resolved? ==>
      && |res.members| == |MemberHeaders(headers)|
      && forall j :: 0 <= j < |MemberHeaders(headers)| ==>
           ResolvesTo(table, MemberHeaders(headers)[j], res.members[j])
    ensures res.UnknownMember? ==>
      exists j :: 0 <= j < |MemberHeaders(headers)| && !Resolvable(table, MemberHeaders(headers)[j])
                  && res.name == StripPrefix(MemberHeaders(headers)[j])
                  && forall i :: 0 <= i < j ==> Resolvable(table, MemberHeaders(headers)[i])
  {
    var cols := MemberHeaders(headers);
    var members: seq<Member> := [];
    var j := 0;
    while j < |cols|
      invariant 0 <= j <= |cols|
      invariant |members| == j
      invariant forall i :: 0 <= i < j ==> ResolvesTo(table, cols[i], members[i])
    {
      var name := StripPrefix(cols[j]);
      var found := FirstWithName(table, name);
      if found.None? {
        assert !Resolvable(table, cols[j]);
        assert forall i :: 0 <= i < j ==> Resolvable(table, cols[i]);
        return UnknownMember(name);
      }
      members := members + [Member(name, table[found.value].id)];
      j := j + 1;
    }
    assert forall i :: 0 <= i < |cols| ==> Resolvable(table, cols[i]);
    res := Resolved(members);
  }
}
