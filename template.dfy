/**
  The blank upload template of get_template_by_group_id (main.py lines 343-400):
  the display name of every group member, repeated names numbered by
  occurrence, and the member columns "_" + name of the Expenses sheet. Only
  the names and headers are modelled; the workbook itself is not.
 */
module Template {
  import opened Options
  import opened Columns

  /** A member of the Splitwise group, as the ledger service reports it. */
  datatype GroupMember = GroupMember(id: int, firstName: string, lastName: Option<string>)

  /** ASCII characters that Python's `str.strip()` removes. */
  predicate IsSpace(c: char)
  {
    // space, then tab, line feed, vertical tab, form feed, carriage return (9-13)
    // and the four separators 28-31
    c == ' ' || 9 <= c as int <= 13 || 28 <= c as int <= 31
  }

  /** Every character of s[lo..hi] is whitespace. */
  predicate SpacesIn(s: string, lo: nat, hi: nat)
    requires lo <= hi <= |s|
  {
    forall k :: lo <= k < hi ==> IsSpace(s[k])
  }

  /** The first index from i on that does not hold whitespace (|s| if none). */
  function SkipSpaces(s: string, i: nat): (r: nat)
    requires i <= |s|
    ensures i <= r <= |s| && SpacesIn(s, i, r)
    ensures r == |s| || !IsSpace(s[r])
    decreases |s| - i
  {
    if i == |s| || !IsSpace(s[i]) then i else SkipSpaces(s, i + 1)
  }

  /** The index after the last non-whitespace character of s[lo..j] (lo if none). */
  function SkipSpacesBack(s: string, lo: nat, j: nat): (r: nat)
    requires lo <= j <= |s|
    ensures lo <= r <= j && SpacesIn(s, r, j)
    ensures r == lo || !IsSpace(s[r - 1])
    decreases j
  {
    if j == lo || !IsSpace(s[j - 1]) then j else SkipSpacesBack(s, lo, j - 1)
  }

  /** `str.strip()`: the part of s between its leading and its trailing whitespace. */
  function Strip(s: string): (r: string)
    ensures exists a, b :: 0 <= a <= b <= |s| && r == s[a..b] && SpacesIn(s, 0, a) && SpacesIn(s, b, |s|)
    ensures r == [] || (!IsSpace(r[0]) && !IsSpace(r[|r| - 1]))
  {
    var a := SkipSpaces(s, 0);
    var b := SkipSpacesBack(s, a, |s|);
    s[a..b]
  }

  /** `f"{member.first_name} {member_last_name}".strip()`, with a missing last name read as "". */
  function FullName(m: GroupMember): (r: string)
    ensures r == [] || (!IsSpace(r[0]) && !IsSpace(r[|r| - 1]))
  {
    var last := match m.lastName case None => "" case Some(l) => l;
    Strip(m.firstName + " " + last)
  }

  /** A member without a last name is listed by the stripped first name alone:
      the blank that separates the missing last name is stripped away with any
      whitespace the first name itself carries. */
  lemma FullNameWithoutLastName(m: GroupMember)
    requires m.lastName.None?
    ensures FullName(m) == Strip(m.firstName)
    ensures m.firstName != [] && !IsSpace(m.firstName[0]) && !IsSpace(m.firstName[|m.firstName| - 1]) ==>
      FullName(m) == m.firstName
  {
    assert m.firstName + " " + "" == m.firstName + " ";
    StripPadded(m.firstName);
    if m.firstName != [] && !IsSpace(m.firstName[0]) && !IsSpace(m.firstName[|m.firstName| - 1]) {
      StripTrimmed(m.firstName);
    }
  }

  /** A blank appended to a string does not survive `str.strip()`. */
  lemma StripPadded(f: string)
    ensures Strip(f + " ") == Strip(f)
  {
    var s := f + " ";
    SkipSpacesPadded(f, 0);
    var a := SkipSpaces(f, 0);
    if a < |f| {
      assert IsSpace(s[|s| - 1]);
      assert SkipSpacesBack(s, a, |s|) == SkipSpacesBack(s, a, |f|);
      SkipSpacesBackPrefix(f, a, |f|);
      var b := SkipSpacesBack(f, a, |f|);
      assert s[a..b] == f[a..b];
    }
  }

  /** A string without whitespace at either end is its own `str.strip()`. */
  lemma StripTrimmed(f: string)
    requires f != [] && !IsSpace(f[0]) && !IsSpace(f[|f| - 1])
    ensures Strip(f) == f
  {
    assert SkipSpaces(f, 0) == 0;
    assert SkipSpacesBack(f, 0, |f|) == |f|;
    assert f[0..|f|] == f;
  }

  /** Skipping leading whitespace sees the same non-blank character after a
      blank is appended; an all-blank tail now also covers the new blank. */
  lemma {:induction false} SkipSpacesPadded(f: string, i: nat)
    requires i <= |f|
    ensures SkipSpaces(f, i) < |f| ==> SkipSpaces(f + " ", i) == SkipSpaces(f, i)
    ensures SkipSpaces(f, i) == |f| ==> SkipSpaces(f + " ", i) == |f| + 1
    decreases |f| - i
  {
    var s := f + " ";
    if i == |f| {
      assert IsSpace(s[i]);
      assert SkipSpaces(s, i + 1) == |s|;
    } else {
      assert s[i] == f[i];
      if IsSpace(f[i]) {
        SkipSpacesPadded(f, i + 1);
      }
    }
  }

  /** Skipping trailing whitespace inside f looks only at f, not at a blank appended after it. */
  lemma {:induction false} SkipSpacesBackPrefix(f: string, lo: nat, j: nat)
    requires lo <= j <= |f|
    ensures SkipSpacesBack(f + " ", lo, j) == SkipSpacesBack(f, lo, j)
    decreases j
  {
    if j > lo {
      assert (f + " ")[j - 1] == f[j - 1];
      if IsSpace(f[j - 1]) {
        SkipSpacesBackPrefix(f, lo, j - 1);
      }
    }
  }

  /** The loop of lines 355-359: one display name per group member, in order. */
  method DisplayNames(members: seq<GroupMember>) returns (names: seq<string>)
    ensures |names| == |members|
    ensures forall i :: 0 <= i < |members| ==> names[i] == FullName(members[i])
  {
    names := [];
    for i := 0 to |members|
      invariant |names| == i
      invariant forall k :: 0 <= k < i ==> names[k] == FullName(members[k])
    {
      names := names + [FullName(members[i])];
    }
  }

  /** `list.count`: occurrences of x in s. */
  function Count(s: seq<string>, x: string): (n: nat)
    ensures n <= |s|
    ensures n == 0 <==> x !in s
  {
    if s == [] then 0
    else Count(s[..|s| - 1], x) + (if s[|s| - 1] == x then 1 else 0)
  }

  /** Counting over a prefix and the rest of a list adds up. */
  lemma {:induction false} CountSplit(s: seq<string>, a: nat, x: string)
    requires a <= |s|
    ensures Count(s, x) == Count(s[..a], x) + Count(s[a..], x)
  {
    if a < |s| {
      var t, last := s[..|s| - 1], s[|s| - 1];
      var bit := if last == x then 1 else 0;
      CountSplit(t, a, x);
      assert t[..a] == s[..a];
      var u := s[a..];
      assert u[..|u| - 1] == t[a..] && u[|u| - 1] == last;
      assert Count(u, x) == Count(t[a..], x) + bit;
      assert Count(s, x) == Count(t, x) + bit;
    } else {
      assert s[..a] == s;
    }
  }

  /** The decimal digit character of d. */
  function DigitChar(d: nat): (c: char)
    requires d < 10
    ensures '0' <= c <= '9'
  {
    ('0' as int + d) as char
  }

  /** `str(n)` for a natural number: its decimal digits, without leading zeros. */
  function NatToString(n: nat): (s: string)
    ensures |s| >= 1
    ensures forall i :: 0 <= i < |s| ==> '0' <= s[i] <= '9'
    ensures s[0] == '0' ==> n == 0
  {
    if n < 10 then [DigitChar(n)]
    else NatToString(n / 10) + [DigitChar(n % 10)]
  }

  /** The number a string of decimal digits stands for. */
  function DigitsValue(s: string): nat
    requires forall i :: 0 <= i < |s| ==> '0' <= s[i] <= '9'
  {
    if s == [] then 0
    else 10 * DigitsValue(s[..|s| - 1]) + (s[|s| - 1] as int - '0' as int)
  }

  /** Reading back the digits of n gives n. */
  lemma {:induction false} NatToStringRoundTrip(n: nat)
    ensures DigitsValue(NatToString(n)) == n
  {
    if n >= 10 {
      var s := NatToString(n);
      assert s[..|s| - 1] == NatToString(n / 10);
      NatToStringRoundTrip(n / 10);
    } else {
      assert NatToString(n)[..0] == [];
    }
  }

  /** Different numbers have different decimal strings. */
  lemma NatToStringInjective(a: nat, b: nat)
    requires NatToString(a) == NatToString(b)
    ensures a == b
  {
    NatToStringRoundTrip(a);
    NatToStringRoundTrip(b);
  }

  /** The occurrence number of names[i]: `member_names[0:i + 1].count(name)`. */
  function Occurrence(names: seq<string>, i: nat): (k: nat)
    requires i < |names|
    ensures 1 <= k <= Count(names, names[i])
  {
    CountSplit(names, i + 1, names[i]);
    assert names[i] in names[..i + 1];
    Count(names[..i + 1], names[i])
  }

  /** The display name written for member i of the template. */
  function Label(names: seq<string>, i: nat): (r: string)
    requires i < |names|
    ensures |names[i]| <= |r| && r[..|names[i]|] == names[i]
    ensures Count(names, names[i]) == 1 ==> r == names[i]
  {
    if Count(names, names[i]) > 1 then names[i] + " " + NatToString(Occurrence(names, i))
    else names[i]
  }

  /** The loop of lines 362-368 building `member_names_enum`. */
  method EnumerateNames(names: seq<string>) returns (out: seq<string>)
    ensures |out| == |names|
    ensures forall i :: 0 <= i < |names| ==> out[i] == Label(names, i)
  {
    out := [];
    for i := 0 to |names|
      invariant |out| == i
      invariant forall k :: 0 <= k < i ==> out[k] == Label(names, k)
    {
      var name := names[i];
      var count := Count(names, name);
      var written;
      if count > 1 {
        written := name + " " + NatToString(Count(names[0..i + 1], name));
      } else {
        written := name;
      }
      assert written == Label(names, i) by {
        assert names[0..i + 1] == names[..i + 1];
      }
      out := out + [written];
      assert out[i] == Label(names, i);
    }
  }

  /** A name that occurs once is written unchanged; the k-th occurrence of a
      repeated name is written as the name, a space and k. */
  lemma LabelShape(names: seq<string>, i: nat)
    requires i < |names|
    ensures Count(names, names[i]) == 1 ==> Label(names, i) == names[i]
    ensures Count(names, names[i]) > 1 ==>
      exists k :: 1 <= k <= Count(names, names[i])
        && k == Count(names[..i + 1], names[i])
        && Label(names, i) == names[i] + " " + NatToString(k)
  {
    var k := Occurrence(names, i);
    assert k == Count(names[..i + 1], names[i]);
    assert Count(names, names[i]) > 1 ==> Label(names, i) == names[i] + " " + NatToString(k);
  }

  /** Later occurrences of a name get larger numbers. */
  lemma {:induction false} OccurrenceIncreases(names: seq<string>, i: nat, j: nat)
    requires i < j < |names| && names[i] == names[j]
    ensures Occurrence(names, i) < Occurrence(names, j)
  {
    var x := names[i];
    var p := names[..j + 1];
    CountSplit(p, i + 1, x);
    assert p[..i + 1] == names[..i + 1];
    assert x in p[i + 1..] by { assert p[i + 1..][j - i - 1] == x; }
  }

  /** Two occurrences of the same name are written as two different labels. */
  lemma RepeatedLabelsDiffer(names: seq<string>, i: nat, j: nat)
    requires i < j < |names| && names[i] == names[j]
    ensures Label(names, i) != Label(names, j)
  {
    var x := names[i];
    OccurrenceIncreases(names, i, j);
    assert Count(names, x) > 1 by {
      assert x in names[..j] by { assert names[..j][i] == x; }
      CountSplit(names, j, x);
      assert x in names[j..] by { assert names[j..][0] == x; }
    }
    if Label(names, i) == Label(names, j) {
      var pre := x + " ";
      var a, b := NatToString(Occurrence(names, i)), NatToString(Occurrence(names, j));
      assert (pre + a)[|pre|..] == a && (pre + b)[|pre|..] == b;
      NatToStringInjective(Occurrence(names, i), Occurrence(names, j));
    }
  }

  /** Numbering does not guarantee distinct labels: a member literally called
      "Ana 1" collides with the first of two members called "Ana". */
  lemma LabelsCanCollide(names: seq<string>)
    requires names == ["Ana", "Ana", "Ana 1"]
    ensures Label(names, 0) == Label(names, 2) == "Ana 1"
  {
    assert names[..1] == ["Ana"];
    assert names[..2] == ["Ana", "Ana"];
    assert Count(names[..1], "Ana") == 1;
    assert Count(names[..2], "Ana") == 2;
    assert Count(names, "Ana") == 2;
    assert Count(names, "Ana 1") == 1;
    assert NatToString(1) == "1";
  }

  /** The fixed headers of the Expenses sheet (line 351). */
  const ExpenseHeaders: seq<string> :=
    ["ID", "Description", "Date", "Amount", "Currency", "Paid by", "All equal", "Split type"]

  /** Line 371: the fixed headers, then "_" + label for every member. */
  function TemplateHeaders(labels: seq<string>): (h: seq<string>)
    ensures |h| == |ExpenseHeaders| + |labels|
    ensures h[..|ExpenseHeaders|] == ExpenseHeaders
  {
    ExpenseHeaders + LabelHeaders(labels)
  }

  lemma {:induction false} NoMemberHeaders(hs: seq<string>)
    requires forall i :: 0 <= i < |hs| ==> !IsMemberHeader(hs[i])
    ensures MemberHeaders(hs) == []
  {
    if hs != [] {
      NoMemberHeaders(hs[..|hs| - 1]);
    }
  }

  lemma {:induction false} OnlyMemberHeaders(hs: seq<string>)
    requires forall i :: 0 <= i < |hs| ==> IsMemberHeader(hs[i])
    ensures MemberHeaders(hs) == hs
  {
    if hs != [] {
      var init := hs[..|hs| - 1];
      assert forall i :: 0 <= i < |init| ==> init[i] == hs[i];
      OnlyMemberHeaders(init);
      assert IsMemberHeader(hs[|hs| - 1]);
      assert hs == init + [hs[|hs| - 1]];
    }
  }

  /** None of the fixed Expenses headers starts with "_", so none is a member column. */
  lemma FixedHeadersAreNotMemberHeaders()
    ensures MemberHeaders(ExpenseHeaders) == []
  {
    forall i | 0 <= i < |ExpenseHeaders| ensures !IsMemberHeader(ExpenseHeaders[i]) {
      assert ExpenseHeaders[i][0] != '_';
    }
    NoMemberHeaders(ExpenseHeaders);
  }

  /** The "_"-prefixed labels, in order. */
  function LabelHeaders(labels: seq<string>): (hs: seq<string>)
    ensures |hs| == |labels|
    ensures forall i :: 0 <= i < |labels| ==> hs[i] == "_" + labels[i]
  {
    seq(|labels|, i requires 0 <= i < |labels| => "_" + labels[i])
  }

  /** Every "_"-prefixed label is a member column. */
  lemma LabelHeadersAreMemberHeaders(labels: seq<string>)
    ensures MemberHeaders(LabelHeaders(labels)) == LabelHeaders(labels)
  {
    var hs := LabelHeaders(labels);
    forall i | 0 <= i < |hs| ensures IsMemberHeader(hs[i]) {
      assert hs[i] == "_" + labels[i];
    }
    OnlyMemberHeaders(hs);
  }

  /** Reading a template back: its member columns are exactly the "_"-prefixed
      labels, in order, and each stands for its label. */
  lemma TemplateMemberColumns(labels: seq<string>)
    ensures MemberHeaders(TemplateHeaders(labels)) == LabelHeaders(labels)
    ensures forall i :: 0 <= i < |labels| ==> StripPrefix(MemberHeaders(TemplateHeaders(labels))[i]) == labels[i]
  {
    var members := LabelHeaders(labels);
    assert TemplateHeaders(labels) == ExpenseHeaders + members;
    MemberHeadersAppend(ExpenseHeaders, members);
    FixedHeadersAreNotMemberHeaders();
    LabelHeadersAreMemberHeaders(labels);
    assert MemberHeaders(TemplateHeaders(labels)) == members;
    forall i | 0 <= i < |labels| ensures StripPrefix(members[i]) == labels[i] {
      assert members[i] == "_" + labels[i];
    }
  }

  /** Lines 391-393: the Members sheet lists each label with the member's ID. */
  function MembersSheet(members: seq<GroupMember>, labels: seq<string>): (sheet: seq<Member>)
    requires |members| == |labels|
    ensures |sheet| == |labels|
    ensures forall i :: 0 <= i < |labels| ==> sheet[i] == Member(labels[i], members[i].id)
  {
    seq(|labels|, i requires 0 <= i < |labels| => Member(labels[i], members[i].id))
  }

  /** A filled-in template resolves every member column back to the ID of the
      member it was written for, as long as the labels are distinct. */
  lemma TemplateResolvesBack(members: seq<GroupMember>, labels: seq<string>)
    requires |members| == |labels|
    requires forall i, j :: 0 <= i < j < |labels| ==> labels[i] != labels[j]
    ensures var cols := MemberHeaders(TemplateHeaders(labels));
      |cols| == |labels| &&
      forall j :: 0 <= j < |labels| ==>
        ResolvesTo(MembersSheet(members, labels), cols[j], Member(labels[j], members[j].id))
  {
    TemplateMemberColumns(labels);
    var cols := MemberHeaders(TemplateHeaders(labels));
    forall j | 0 <= j < |labels|
      ensures ResolvesTo(MembersSheet(members, labels), cols[j], Member(labels[j], members[j].id))
    {
      assert cols[j] == "_" + labels[j];
      ColumnResolvesBack(members, labels, j);
    }
  }

  /** The column written for member j resolves to member j's ID. */
  lemma ColumnResolvesBack(members: seq<GroupMember>, labels: seq<string>, j: nat)
    requires |members| == |labels| && j < |labels|
    requires forall i, k :: 0 <= i < k < |labels| ==> labels[i] != labels[k]
    ensures IsMemberHeader("_" + labels[j])
    ensures ResolvesTo(MembersSheet(members, labels), "_" + labels[j], Member(labels[j], members[j].id))
  {
    var sheet := MembersSheet(members, labels);
    assert StripPrefix("_" + labels[j]) == labels[j];
    UniqueNameFound(sheet, j);
  }

  /** A name that only row j of the Members sheet carries is found at row j. */
  lemma UniqueNameFound(sheet: seq<Member>, j: nat)
    requires j < |sheet|
    requires forall k :: 0 <= k < |sheet| && k != j ==> sheet[k].name != sheet[j].name
    ensures FirstWithName(sheet, sheet[j].name) == Some(j)
  {
    var r := FirstWithName(sheet, sheet[j].name);
    assert r.Some?;
  }

  /** Distinct display names are written unchanged. */
  lemma DistinctNamesUnchanged(names: seq<string>)
    requires forall i, j :: 0 <= i < j < |names| ==> names[i] != names[j]
    ensures forall i :: 0 <= i < |names| ==> Label(names, i) == names[i]
  {
    forall i | 0 <= i < |names| ensures Count(names, names[i]) == 1 {
      CountSplit(names, i, names[i]);
      assert names[i] !in names[..i];
      assert names[i..] == [names[i]] + names[i + 1..];
      assert names[i] !in names[i + 1..];
      CountSplit(names[i..], 1, names[i]);
      assert names[i..][..1] == [names[i]];
      assert names[i..][1..] == names[i + 1..];
    }
  }
}
