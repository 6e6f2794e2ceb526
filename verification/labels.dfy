/**
 The per-row labels of a receipt: the business name, the card digits, the
 place name sent to the address lookup and the line-wrapped address.
 */
module Labels {
  import opened Wrappers
  import opened PyStr

  /** A spreadsheet cell: empty (`None`) or its text. */
  type Cell = Option<string>

  /** Python's `str(cell)`: an empty cell prints as "None". */
  function Str(c: Cell): string {
    match c
    case None => "None"
    case Some(s) => s
  }

  /** Python truthiness of a cell: both `None` and "" are false. */
  predicate Truthy(c: Cell) {
    c.Some? && c.value != ""
  }

  /**
   `get_business_info(name, desc)`: the description wins whenever it is
   truthy, then the name, then the literal "Business Name". The label is
   never empty.
   */
  function GetBusinessInfo(name: Cell, desc: Cell): (r: string)
    ensures r != ""
    ensures Truthy(desc) ==> r == desc.value
    ensures !Truthy(desc) && Truthy(name) ==> r == name.value
    ensures !Truthy(desc) && !Truthy(name) ==> r == "Business Name"
  {
    if Truthy(desc) then desc.value
    else if Truthy(name) then name.value
    else "Business Name"
  }

  /** Examples of the precedence, on empty, missing and filled cells. */
  lemma BusinessInfoExamples()
    ensures GetBusinessInfo(Some(""), Some("")) == "Business Name"
    ensures GetBusinessInfo(None, None) == "Business Name"
    ensures GetBusinessInfo(Some("Acme"), Some("")) == "Acme"
    ensures GetBusinessInfo(Some(""), Some("Downtown")) == "Downtown"
    ensures GetBusinessInfo(Some("Acme"), Some("Downtown")) == "Downtown"
  {
  }

  /** Zero for negative numbers, the number otherwise. */
  function Max0(a: int): nat {
    if a < 0 then 0 else a
  }

  /**
   `get_card_info(card)`: the slice `card[-5:-1]`, the four characters
   that end just before the last one. Shorter strings clamp: everything but
   the last character, and nothing for the empty string.
   */
  function GetCardInfo(card: string): (r: string)
    ensures r == card[Max0(|card| - 5)..Max0(|card| - 1)]
    ensures |card| >= 5 ==> |r| == 4 && r == card[|card| - 5..|card| - 1]
    ensures |r| <= 4
  {
    Slice(card, -5, -1)
  }

  /** A ten-character card string gives the characters at indices 5 to 8. */
  lemma CardInfoExample()
    ensures GetCardInfo("1234567890") == "6789"
  {
    assert "1234567890"[5..9] == "6789";
  }

  /**
   The place-name choice of `get_address`: the name only when it is strictly
   longer than the description; a tie goes to the description.
   */
  function PlaceName(name: string, desc: string): (r: string)
    ensures r == name || r == desc
    ensures |r| >= |name| && |r| >= |desc|
    ensures |name| == |desc| ==> r == desc
  {
    if |name| > |desc| then name else desc
  }

  /**
   The search text handed to the address lookup before URL encoding: the
   place name with "around CT/NY" appended directly, without a space.
   */
  function AddressQuery(name: string, desc: string): string {
    PlaceName(name, desc) + "around CT/NY"
  }

  /** `get_formatted_address`'s rewrite of the resolved address: every ", " becomes ",\n". */
  function WrapAddress(address: string): string {
    Replace(address, ", ", ",\n")
  }

  /**
   Wrapping keeps the length, turns a space into a line break exactly where
   it follows a comma, keeps every other character, and leaves no ", ".
   */
  lemma WrapAddressShape(address: string)
    ensures var r := WrapAddress(address);
      && |r| == |address|
      && (forall i :: 0 <= i < |r| ==>
            r[i] == (if 0 < i && address[i - 1] == ',' && address[i] == ' ' then '\n' else address[i]))
      && !IsInfix(", ", r)
  {
    assert ", " == [',', ' '] && ",\n" == [',', '\n'];
    ReplacePairMap(address, ',', ' ', '\n');
    NoCommaSpaceAfterWrap(address);
  }

  /** No ", " survives the rewrite: a kept comma is never followed by a kept space. */
  lemma NoCommaSpaceAfterWrap(address: string)
    ensures !IsInfix(", ", Replace(address, ", ", ",\n"))
  {
    ReplacePairPointwise(address, ',', ' ', '\n');
    var r := Replace(address, ", ", ",\n");
    forall i: nat | i + 1 < |r|
      ensures !(r[i] == ',' && r[i + 1] == ' ')
    {
      assert r[i] == (if 0 < i && address[i - 1] == ',' && address[i] == ' ' then '\n' else address[i]);
      assert r[i + 1] == (if address[i] == ',' && address[i + 1] == ' ' then '\n' else address[i + 1]);
    }
    forall i: nat
      ensures !OccursAt(", ", r, i)
    {
      if i + 2 <= |r| {
        assert r[i..i + 2] == [r[i], r[i + 1]];
      }
    }
  }

  /**
   An address made of comma-free parts separated by ", " is wrapped into the
   same parts separated by ",\n" (for example "123 Main St, Springfield, CT"
   becomes "123 Main St,\nSpringfield,\nCT").
   */
  lemma {:induction false} WrapJoinedParts(parts: seq<string>)
    requires forall k :: 0 <= k < |parts| ==> ',' !in parts[k]
    ensures WrapAddress(Join(parts, ", ")) == Join(parts, ",\n")
  {
    var pat, rep := ", ", ",\n";
    if |parts| == 0 {
    } else if |parts| == 1 {
      ReplaceSkip(parts[0], "", pat, rep);
      assert parts[0] + "" == parts[0];
    } else {
      var rest := Join(parts[1..], pat);
      WrapJoinedParts(parts[1..]);
      ReplaceAtPattern(pat, rest, rep);
      ReplaceSkip(parts[0], pat + rest, pat, rep);
    }
  }

  /**
   Wrapping loses nothing: when the address held no ",\n" of its own,
   turning every ",\n" back into ", " restores it.
   */
  lemma WrapAddressRoundTrip(address: string)
    requires !IsInfix(",\n", address)
    ensures Replace(WrapAddress(address), ",\n", ", ") == address
  {
    forall j: nat | j + 1 < |address|
      ensures !(address[j] == ',' && address[j + 1] == '\n')
    {
      assert address[j..j + 2] == [address[j], address[j + 1]];
      assert !OccursAt(",\n", address, j);
    }
    var w := WrapAddress(address);
    WrapAddressShape(address);
    ReplacePairPointwise(w, ',', '\n', ' ');
    var u := Replace(w, ",\n", ", ");
    assert |u| == |w| == |address|;
    forall i | 0 <= i < |address|
      ensures u[i] == address[i]
    {
      assert u[i] == (if 0 < i && w[i - 1] == ',' && w[i] == '\n' then ' ' else w[i]);
      assert w[i] == (if 0 < i && address[i - 1] == ',' && address[i] == ' ' then '\n' else address[i]);
      if 0 < i {
        assert w[i - 1] == (if 0 < i - 1 && address[i - 2] == ',' && address[i - 1] == ' ' then '\n' else address[i - 1]);
        if address[i - 1] == ',' {
          assert w[i - 1] == ',';
          assert address[i] != '\n';
        }
      }
    }
  }
}
