/**
 * The FIX 5.0 ExecutionReport (MsgType 8) that every dispatch tick builds:
 * a fixed template filled by successive `set`/`setString` calls and four
 * instances of the Parties repeating group (NoPartyIDs, tag 453).
 *
 * The message is a tag-to-value map of body fields plus the ordered group
 * instances.  Values are the strings the FIX encoding writes: characters for
 * the enumerations, decimal strings for the quantities and prices.
 */
module ExecutionReports {

  type Tag = nat

  const OrderIdTag: Tag := 37
  const ExecIdTag: Tag := 17
  const ExecTypeTag: Tag := 150
  const OrdStatusTag: Tag := 39
  const SideTag: Tag := 54
  const LeavesQtyTag: Tag := 151
  const CumQtyTag: Tag := 14
  const SymbolTag: Tag := 55
  const SecurityIdTag: Tag := 48
  const SecurityIdSourceTag: Tag := 22
  const OrderQtyTag: Tag := 38
  const OrdTypeTag: Tag := 40
  const AvgPxTag: Tag := 6
  const PriceTag: Tag := 44
  const ClOrdIdTag: Tag := 11
  const TimeInForceTag: Tag := 59
  const TransactTimeTag: Tag := 60
  const AccountTypeTag: Tag := 581
  const CopyMsgIndicatorTag: Tag := 797
  const NoPartyIdsTag: Tag := 453

  /** One instance of the Parties group: PartyID (448), PartyIDSource (447), PartyRole (452). */
  datatype Party = Party(partyId: string, partyIdSource: char, partyRole: nat)

  /** The decimal spelling of a count, as an integer field is written. */
  function Decimal(n: nat): (s: string)
    decreases n
    ensures |s| > 0
    ensures forall i :: 0 <= i < |s| ==> '0' <= s[i] <= '9'
  {
    if n < 10 then [Digit(n)] else Decimal(n / 10) + [Digit(n % 10)]
  }

  function Digit(d: nat): (c: char)
    requires d < 10
    ensures '0' <= c <= '9' && c as int - '0' as int == d
  {
    ('0' as int + d) as char
  }

  /** The value of a decimal spelling. */
  function ValueOf(s: string): (n: nat)
    requires forall i :: 0 <= i < |s| ==> '0' <= s[i] <= '9'
  {
    if s == [] then 0 else ValueOf(s[..|s| - 1]) * 10 + (s[|s| - 1] as int - '0' as int)
  }

  /** Reading a count back from its spelling gives the count. */
  lemma {:induction false} DecimalRoundTrip(n: nat)
    ensures ValueOf(Decimal(n)) == n
    decreases n
  {
    if n >= 10 {
      DecimalRoundTrip(n / 10);
      var s := Decimal(n);
      assert s[..|s| - 1] == Decimal(n / 10);
    }
  }

  /** An ExecutionReport under construction. */
  class ExecutionReport {
    const msgType: string
    var fields: map<Tag, string>
    var parties: seq<Party>

    /** The group count field always agrees with the number of group instances. */
    predicate Valid()
      reads this
    {
      && (parties == [] ==> NoPartyIdsTag !in fields)
      && (parties != [] ==> NoPartyIdsTag in fields && fields[NoPartyIdsTag] == Decimal(|parties|))
    }

    /** The seven-field constructor of the FIX 5.0 ExecutionReport. */
    constructor(orderId: string, execId: string, execType: char, ordStatus: char, side: char,
                leavesQty: string, cumQty: string)
      ensures msgType == "8"
      ensures fields == map[OrderIdTag := orderId, ExecIdTag := execId, ExecTypeTag := [execType],
                            OrdStatusTag := [ordStatus], SideTag := [side],
                            LeavesQtyTag := leavesQty, CumQtyTag := cumQty]
      ensures parties == []
      ensures Valid()
    {
      msgType := "8";
      fields := map[OrderIdTag := orderId, ExecIdTag := execId, ExecTypeTag := [execType],
                    OrdStatusTag := [ordStatus], SideTag := [side],
                    LeavesQtyTag := leavesQty, CumQtyTag := cumQty];
      parties := [];
    }

    /** `set(field)` and `setString(tag, value)`: the tag now holds the value, replacing any earlier one. */
    method Set(tag: Tag, value: string)
      requires tag != NoPartyIdsTag
      modifies this
      ensures fields == old(fields)[tag := value]
      ensures parties == old(parties)
      ensures old(Valid()) ==> Valid()
    {
      fields := fields[tag := value];
    }

    /** `addGroup(group)`: the instance goes after those already added, and the count field follows. */
    method AddGroup(p: Party)
      modifies this
      ensures parties == old(parties) + [p]
      ensures fields == old(fields)[NoPartyIdsTag := Decimal(|parties|)]
      ensures Valid()
    {
      parties := parties + [p];
      fields := fields[NoPartyIdsTag := Decimal(|parties|)];
    }
  }

  /** The scalar fields of the report, in the order they are set, with `transactTime` as formatted from the clock. */
  function ScalarFields(transactTime: string): (fields: map<Tag, string>)
  {
    map[
      OrderIdTag := "0B045C42000104DB", ExecIdTag := "13150", ExecTypeTag := "0", OrdStatusTag := "0",
      SideTag := "1", LeavesQtyTag := "100", CumQtyTag := "0",
      SymbolTag := "AOT", SecurityIdTag := "65553", SecurityIdSourceTag := "M", OrderQtyTag := "100",
      OrdTypeTag := "2", AvgPxTag := "0", PriceTag := "61.25", ClOrdIdTag := "049N20IA6PT0004",
      TimeInForceTag := "0", TransactTimeTag := transactTime,
      30001 := "N", 30009 := "N", 2362 := "992133217", 30010 := "T", 30012 := "N",
      AccountTypeTag := "1", CopyMsgIndicatorTag := "Y"
    ]
  }

  /** The tags of the scalar fields, in the order they are set. */
  const ScalarTags: seq<Tag> := [
    OrderIdTag, ExecIdTag, ExecTypeTag, OrdStatusTag, SideTag, LeavesQtyTag, CumQtyTag,
    SymbolTag, SecurityIdTag, SecurityIdSourceTag, OrderQtyTag, OrdTypeTag, AvgPxTag, PriceTag,
    ClOrdIdTag, TimeInForceTag, TransactTimeTag, 30001, 30009, 2362, 30010, 30012,
    AccountTypeTag, CopyMsgIndicatorTag
  ]

  /** The body of the report the tick sends: the scalar fields and the Parties group count. */
  function ReportFields(transactTime: string): (fields: map<Tag, string>)
  {
    ScalarFields(transactTime)[NoPartyIdsTag := Decimal(|ReportParties()|)]
  }

  /** The Parties instances of the report, in the order they are added. */
  function ReportParties(): (parties: seq<Party>)
  {
    [Party("9221332174", 'D', 24), Party("9221332174", 'D', 83), Party("C023", 'D', 4), Party("I1111", 'D', 12)]
  }

  /**
   * The construction of one report: the constructor, the scalar fields one
   * `set` at a time, the clock's TransactTime, the custom tags and the four
   * Parties instances.
   */
  method BuildReport(transactTime: string) returns (r: ExecutionReport)
    ensures fresh(r) && r.Valid() && r.msgType == "8"
    ensures r.fields == ReportFields(transactTime)
    ensures r.parties == ReportParties()
  {
    r := new ExecutionReport("0B045C42000104DB", "13150", '0', '0', '1', "100", "0");
    SetScalars(r, transactTime);
    AddParties(r);
  }

  /** The `set` and `setString` calls after the constructor */
  method SetScalars(r: ExecutionReport, transactTime: string)
    requires r.parties == []
    requires r.fields == map[OrderIdTag := "0B045C42000104DB", ExecIdTag := "13150", ExecTypeTag := "0",
                             OrdStatusTag := "0", SideTag := "1", LeavesQtyTag := "100", CumQtyTag := "0"]
    modifies r
    ensures r.fields == ScalarFields(transactTime) && r.parties == []
  {
    r.Set(SymbolTag, "AOT");
    r.Set(SecurityIdTag, "65553");
    r.Set(SecurityIdSourceTag, "M");
    r.Set(OrderQtyTag, "100");
    r.Set(OrdTypeTag, "2");
    r.Set(AvgPxTag, "0");
    r.Set(PriceTag, "61.25");
    r.Set(ClOrdIdTag, "049N20IA6PT0004");
    r.Set(TimeInForceTag, "0");
    r.Set(TransactTimeTag, transactTime);
    r.Set(30001, "N");
    r.Set(30009, "N");
    r.Set(2362, "992133217");
    r.Set(30010, "T");
    r.Set(30012, "N");
    r.Set(AccountTypeTag, "1");
    r.Set(CopyMsgIndicatorTag, "Y");
  }

  /** The four `addGroup` calls for the Parties group. */
  method AddParties(r: ExecutionReport)
    requires r.parties == []
    modifies r
    ensures r.parties == ReportParties() && r.Valid()
    ensures r.fields == old(r.fields)[NoPartyIdsTag := Decimal(|ReportParties()|)]
  {
    r.AddGroup(Party("9221332174", 'D', 24));
    r.AddGroup(Party("9221332174", 'D', 83));
    r.AddGroup(Party("C023", 'D', 4));
    r.AddGroup(Party("I1111", 'D', 12));
  }


  /**
   * Two builds differ only in TransactTime: the same tags, the same value
   * under every other tag, and the clock's value under tag 60.
   */
  lemma BuildsDifferOnlyInTransactTime(t1: string, t2: string)
    ensures ReportFields(t1).Keys == ReportFields(t2).Keys
    ensures forall tag :: tag in ReportFields(t1) && tag != TransactTimeTag ==> ReportFields(t1)[tag] == ReportFields(t2)[tag]
    ensures ReportFields(t1)[TransactTimeTag] == t1 && ReportFields(t2)[TransactTimeTag] == t2
    ensures t1 != t2 <==> ReportFields(t1) != ReportFields(t2)
  {
    if ReportFields(t1) == ReportFields(t2) {
      assert ReportFields(t1)[TransactTimeTag] == ReportFields(t2)[TransactTimeTag];
    }
  }

  /** No `set` call overwrites another: the scalar tags are pairwise distinct. */
  lemma EverySetWritesANewTag()
    ensures forall i, j :: 0 <= i < j < |ScalarTags| ==> ScalarTags[i] != ScalarTags[j]
  {
  }

  /** The body holds exactly the scalar tags and the group count. */
  lemma ReportTagsAreScalarTagsAndCount(t: string)
    ensures forall tag :: tag in ReportFields(t) <==> tag in ScalarTags || tag == NoPartyIdsTag
  {
  }



  /**
   * The report carries four Parties instances in the order added; the two
   * with the same PartyID are both kept, the roles telling them apart.
   */
  lemma PartiesInOrderWithoutDeduplication()
    ensures |ReportParties()| == 4
    ensures ReportParties()[0].partyId == ReportParties()[1].partyId
    ensures ReportParties()[0] != ReportParties()[1]
    ensures forall i :: 0 <= i < 4 ==> ReportParties()[i].partyIdSource == 'D'
    ensures [ReportParties()[0].partyRole, ReportParties()[1].partyRole,
             ReportParties()[2].partyRole, ReportParties()[3].partyRole] == [24, 83, 4, 12]
  {
  }

  /** The group count written in the body is the number of instances the report carries. */
  lemma GroupCountMatchesParties(t: string)
    ensures ReportFields(t)[NoPartyIdsTag] == Decimal(|ReportParties()|)
    ensures ValueOf(ReportFields(t)[NoPartyIdsTag]) == |ReportParties()|
  {
    DecimalRoundTrip(4);
  }
}
