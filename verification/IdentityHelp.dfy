/** The help of an identityref leaf: a recursive length, and the recursive writer of the text that
    has to fit in a buffer of that length (`creat_help_for_identity_type`). */
module IdentityHelp {
  import opened CStrings

  /** A YANG identity with those derived from it; identities cannot derive from each other in a
      cycle. */
  datatype Identity = Identity(modname: string, name: string, derived: seq<Identity>)

  const MARK := " [+] "
  const HEADING := "\nAvailable options:\n"

  /** The text for the identities derived from `id`, each followed by its own. */
  function Text(id: Identity): string {
    Texts(id.derived)
  }

  function Texts(ids: seq<Identity>): string {
    if ids == [] then "" else Entry(ids[0]) + Text(ids[0]) + Texts(ids[1..])
  }

  /** One line: the qualified name of an identity. */
  function Entry(id: Identity): string {
    MARK + id.modname + ":" + id.name + "\n"
  }

  /** The help of a leaf; the bases themselves are not listed. */
  function Help(dsc: string, bases: seq<Identity>): string {
    dsc + HEADING + BaseTexts(bases)
  }

  function BaseTexts(bases: seq<Identity>): string {
    if bases == [] then "" else Text(bases[0]) + BaseTexts(bases[1..])
  }

  lemma {:induction false} TextsAppend(ids: seq<Identity>, id: Identity)
    ensures Texts(ids + [id]) == Texts(ids) + Entry(id) + Text(id)
  {
    hide Entry;
    if ids == [] {
      assert ids + [id] == [id] && [id][1..] == [] && Texts([]) == "";
    } else {
      TextsAppend(ids[1..], id);
      assert (ids + [id])[1..] == ids[1..] + [id];
    }
  }

  lemma {:induction false} BaseTextsAppend(bases: seq<Identity>, base: Identity)
    ensures BaseTexts(bases + [base]) == BaseTexts(bases) + Text(base)
  {
    if bases == [] {
      assert bases + [base] == [base] && BaseTexts([]) == "";
    } else {
      BaseTextsAppend(bases[1..], base);
      assert (bases + [base])[1..] == bases[1..] + [base];
    }
  }

  /** How the text grows from one prefix of the identities to the next. */
  lemma {:induction false} TextsGrow(ids: seq<Identity>, i: nat)
    requires i < |ids|
    ensures Texts(ids[..i + 1]) == Texts(ids[..i]) + Entry(ids[i]) + Text(ids[i])
    ensures |Texts(ids[..i + 1])| <= |Texts(ids)|
    decreases |ids| - i
  {
    hide Entry, Texts;
    assert ids[..i + 1] == ids[..i] + [ids[i]];
    TextsAppend(ids[..i], ids[i]);
    if i + 1 < |ids| {
      TextsGrow(ids, i + 1);
    } else {
      assert ids[..i + 1] == ids;
    }
  }

  // ----- The length

  /** `calculate_identities_length` */
  method CalculateLength(id: Identity) returns (length: nat)
    ensures length == |Text(id)|
    decreases id
  {
    length := 0;
    for i := 0 to |id.derived|
      invariant length == |Texts(id.derived[..i])|
    {
      TextsGrow(id.derived, i);
      length := length + |MARK| + |id.derived[i].modname| + |id.derived[i].name| + 2;
      var more := CalculateLength(id.derived[i]);
      length := length + more;
    }
    assert id.derived[..|id.derived|] == id.derived;
  }

  // ----- The buffer

  class Buffer {
    const data: array<char>
    var len: nat

    /** The string of length `len`, with its terminator, lies within the buffer. */
    ghost predicate Valid()
      reads this, data
    {
      len < data.Length && data[len] == NUL
    }

    ghost function Contents(): string
      requires Valid()
      reads this, data
    {
      data[..len]
    }

    /** `malloc(size)` with an empty string in it. */
    constructor (size: nat)
      requires size > 0
      ensures Valid() && Contents() == "" && data.Length == size && fresh(data)
    {
      data := new char[size](_ => NUL);
      len := 0;
    }

    /** `strcat`: there has to be room for the string and the terminator. */
    method Append(s: string)
      requires Valid() && len + |s| < data.Length
      modifies this, data
      ensures Valid() && Contents() == old(Contents()) + s
    {
      for i := 0 to |s|
        invariant len == old(len) + i && data[..len] == old(data[..len]) + s[..i]
      {
        data[len] := s[i];
        len := len + 1;
      }
      data[len] := NUL;
    }
  }

  method AddEntry(id: Identity, help: Buffer)
    requires help.Valid() && help.len + |Entry(id)| < help.data.Length
    modifies help, help.data
    ensures help.Valid() && help.Contents() == old(help.Contents()) + Entry(id)
  {
    var idStr := id.modname + ":" + id.name;
    assert Entry(id) == MARK + idStr + "\n";
    hide Entry;
    help.Append(MARK);
    help.Append(idStr);
    help.Append("\n");
  }

  /** `add_identities_recursive` */
  method AddIdentities(id: Identity, help: Buffer)
    requires help.Valid() && help.len + |Text(id)| < help.data.Length
    modifies help, help.data
    ensures help.Valid() && help.Contents() == old(help.Contents()) + Text(id)
    decreases id
  {
    hide Entry, Texts;
    NoTexts();
    for i := 0 to |id.derived|
      invariant help.Valid() && help.Contents() == old(help.Contents()) + Texts(id.derived[..i])
    {
      TextsGrow(id.derived, i);
      AddEntry(id.derived[i], help);
      AddIdentities(id.derived[i], help);
    }
    assert id.derived[..|id.derived|] == id.derived;
  }

  lemma NoTexts()
    ensures Texts([]) == ""
  {
  }

  /** What `creat_help_for_identity_type` allocates: it reckons with a heading without its leading
      newline and without a terminator, but with a line for every base. */
  function Allocated(dsc: string, bases: seq<Identity>): nat {
    |dsc| + |"Available options:\n"| + BaseLengths(bases)
  }

  function BaseLengths(bases: seq<Identity>): nat {
    if bases == [] then 0
    else |"[+] "| + |bases[0].modname| + |bases[0].name| + 2 + |Text(bases[0])| + BaseLengths(bases[1..])
  }

  lemma {:induction false} BaseLengthsAppend(bases: seq<Identity>, base: Identity)
    ensures BaseLengths(bases + [base])
         == BaseLengths(bases) + |"[+] "| + |base.modname| + |base.name| + 2 + |Text(base)|
  {
    if bases == [] {
      assert bases + [base] == [base];
    } else {
      BaseLengthsAppend(bases[1..], base);
      assert (bases + [base])[1..] == bases[1..] + [base];
    }
  }

  lemma {:induction false} BaseLengthsCover(bases: seq<Identity>)
    ensures BaseLengths(bases) >= |BaseTexts(bases)| + 6 * |bases|
  {
    if bases != [] {
      BaseLengthsCover(bases[1..]);
    }
  }

  /** The string and its terminator fit exactly when the leaf has a base, as every identityref does
      (section 9.10.2 of RFC 7950). */
  lemma HelpFits(dsc: string, bases: seq<Identity>)
    ensures |Help(dsc, bases)| + 1 <= Allocated(dsc, bases) <==> bases != []
  {
    BaseLengthsCover(bases);
  }

  method CreateHelp(dsc: string, bases: seq<Identity>) returns (help: Buffer)
    requires bases != []
    ensures fresh(help) && fresh(help.data) && help.Valid() && help.Contents() == Help(dsc, bases)
    ensures help.data.Length == Allocated(dsc, bases)
  {
    var size := |dsc| + |"Available options:\n"|;
    for i := 0 to |bases|
      invariant size == Allocated(dsc, bases[..i])
    {
      assert bases[..i + 1] == bases[..i] + [bases[i]];
      BaseLengthsAppend(bases[..i], bases[i]);
      size := size + |"[+] "| + |bases[i].modname| + |bases[i].name| + 2;
      var more := CalculateLength(bases[i]);
      size := size + more;
    }
    assert bases[..|bases|] == bases;
    HelpFits(dsc, bases);
    help := new Buffer(size);
    WriteHelp(dsc, bases, help);
  }

  method WriteHelp(dsc: string, bases: seq<Identity>, help: Buffer)
    requires help.Valid() && help.Contents() == "" && |Help(dsc, bases)| < help.data.Length
    modifies help, help.data
    ensures help.Valid() && help.Contents() == Help(dsc, bases)
  {
    hide BaseTexts, Text;
    help.Append(dsc);
    help.Append(HEADING);
    NoBaseTexts();
    for i := 0 to |bases|
      invariant help.Valid() && help.Contents() == dsc + HEADING + BaseTexts(bases[..i])
    {
      BaseTextsGrow(bases, i);
      AddIdentities(bases[i], help);
    }
    assert bases[..|bases|] == bases;
  }

  lemma NoBaseTexts()
    ensures BaseTexts([]) == ""
  {
  }

  lemma {:induction false} BaseTextsGrow(bases: seq<Identity>, i: nat)
    requires i < |bases|
    ensures BaseTexts(bases[..i + 1]) == BaseTexts(bases[..i]) + Text(bases[i])
    ensures |BaseTexts(bases[..i + 1])| <= |BaseTexts(bases)|
    decreases |bases| - i
  {
    assert bases[..i + 1] == bases[..i] + [bases[i]];
    BaseTextsAppend(bases[..i], bases[i]);
    if i + 1 < |bases| {
      BaseTextsGrow(bases, i + 1);
    } else {
      assert bases[..i + 1] == bases;
    }
  }

  // ----- What the help lists

  /** The identities derived from these, each followed by those derived from it. */
  function Descendants(ids: seq<Identity>): seq<Identity> {
    if ids == [] then [] else [ids[0]] + Descendants(ids[0].derived) + Descendants(ids[1..])
  }

  /** `d` is one of the identities, or is derived from one of them in any number of steps. */
  ghost predicate IsAmong(d: Identity, ids: seq<Identity>) {
    exists i :: 0 <= i < |ids| && (d == ids[i] || IsAmong(d, ids[i].derived))
  }

  lemma {:induction false} DescendantsAreAll(ids: seq<Identity>, d: Identity)
    ensures d in Descendants(ids) <==> IsAmong(d, ids)
  {
    if ids != [] {
      DescendantsAreAll(ids[0].derived, d);
      DescendantsAreAll(ids[1..], d);
      assert forall i :: 0 <= i < |ids[1..]| ==> ids[1..][i] == ids[i + 1];
      assert IsAmong(d, ids) <==> d == ids[0] || IsAmong(d, ids[0].derived) || IsAmong(d, ids[1..]) by {
        if i :| 0 < i < |ids| && (d == ids[i] || IsAmong(d, ids[i].derived)) {
          assert ids[1..][i - 1] == ids[i];
        }
      }
    }
  }

  /** One line for each identity: its name, qualified by its module. */
  function Listing(ids: seq<Identity>): (lines: seq<string>)
    ensures |lines| == |ids|
    ensures forall i :: 0 <= i < |ids| ==> lines[i] == " [+] " + ids[i].modname + ":" + ids[i].name + "\n"
  {
    seq(|ids|, i requires 0 <= i < |ids| => " [+] " + ids[i].modname + ":" + ids[i].name + "\n")
  }

  lemma ListingAppend(a: seq<Identity>, b: seq<Identity>)
    ensures Glue(Listing(a + b)) == Glue(Listing(a)) + Glue(Listing(b))
  {
    assert Listing(a + b) == Listing(a) + Listing(b);
    GlueAppend(Listing(a), Listing(b));
  }

  lemma {:induction false} TextsList(ids: seq<Identity>)
    ensures Texts(ids) == Glue(Listing(Descendants(ids)))
  {
    hide Listing;
    if ids != [] {
      TextsList(ids[0].derived);
      TextsList(ids[1..]);
      ListingAppend([ids[0]] + Descendants(ids[0].derived), Descendants(ids[1..]));
      ListingAppend([ids[0]], Descendants(ids[0].derived));
      var line := Listing([ids[0]]);
      assert line == [line[0]];
      GlueOne(line[0]);
    }
  }

  /** The help of a leaf is its description and, below the heading, one line for every identity that
      is derived from a base, in depth-first order. */
  lemma HelpLists(dsc: string, bases: seq<Identity>)
    ensures Help(dsc, bases) == dsc + "\nAvailable options:\n" + Glue(Listing(BelowBases(bases)))
  {
    BaseTextsList(bases);
  }

  function BelowBases(bases: seq<Identity>): seq<Identity> {
    if bases == [] then [] else Descendants(bases[0].derived) + BelowBases(bases[1..])
  }

  lemma {:induction false} BaseTextsList(bases: seq<Identity>)
    ensures BaseTexts(bases) == Glue(Listing(BelowBases(bases)))
  {
    if bases != [] {
      BaseTextsList(bases[1..]);
      TextsList(bases[0].derived);
      ListingAppend(Descendants(bases[0].derived), BelowBases(bases[1..]));
    }
  }
}
