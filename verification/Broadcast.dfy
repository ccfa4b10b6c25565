// backend/internal/ws/hub.go, broadcastSub: the cells sent to the subscribers of a key. Redis holds them at
// the ticker's base compression; a higher one is merged from them.

module Broadcast {
  import opened Binning
  import opened Cells
  import Merging
  import HubSpec
  import SubKeys
  import Aggregation

  /** Base cells at the compression of a key: merged only when it is above the base. */
  method CellsToSend(base: seq<Cell>, comp: SubKeys.Uint32, tc: HubSpec.TickerConfig) returns (cells: seq<Cell>)
    requires tc.tickSize > 0 && tc.baseCompression > 0
    ensures comp <= tc.baseCompression ==> cells == base
    ensures comp > tc.baseCompression && base != [] ==>
      IsSnapshot(cells, Group(base, Coarser(GroupSize(comp, tc), BinSize(tc.tickSize, tc.baseCompression))))
  {
    cells := base;
    if comp > tc.baseCompression {
      var groupSize := GroupSize(comp, tc);
      cells := Aggregation.MergeCells(base, groupSize, tc.tickSize, tc.baseCompression);
    }
  }

  /** Whole base bins per bin of the key; at least one from the base compression up. */
  function GroupSize(comp: SubKeys.Uint32, tc: HubSpec.TickerConfig): (g: nat)
    requires tc.baseCompression > 0
    ensures comp >= tc.baseCompression ==> g > 0
  {
    DivBounds(comp, tc.baseCompression);
    comp / tc.baseCompression
  }

  /** Every compression the validator lets through is a whole number of base groups. */
  lemma WholeGroups(comp: SubKeys.Uint32, tc: HubSpec.TickerConfig)
    requires HubSpec.ValidCompression(comp, tc) && comp > 0
    ensures tc.baseCompression > 0 && GroupSize(comp, tc) > 0
    ensures GroupSize(comp, tc) * tc.baseCompression == comp
  {
    assert comp == tc.baseCompression * (comp / tc.baseCompression) + comp % tc.baseCompression;
  }

  /** What subscribers of an accepted compression are sent is the aggregation of the contributions at that
      very compression, when the base cells are a snapshot of them and quantities are in tenths. */
  lemma SentCellsAreDirect(cs: seq<Cell>, base: seq<Cell>, sent: seq<Cell>, comp: SubKeys.Uint32,
                           tc: HubSpec.TickerConfig)
    requires HubSpec.ValidCompression(comp, tc) && comp > 0 && tc.baseCompression > 0 && tc.tickSize > 0
    requires IsSnapshot(base, Group(cs, BinSize(tc.tickSize, tc.baseCompression))) && Merging.InTenths(cs)
    requires if comp <= tc.baseCompression then sent == base
             else GroupSize(comp, tc) > 0 &&
                  IsSnapshot(sent, Group(base, Coarser(GroupSize(comp, tc), BinSize(tc.tickSize, tc.baseCompression))))
    ensures IsSnapshot(sent, Group(cs, BinSize(tc.tickSize, comp)))
  {
    hide IsSnapshot, Group, BinSize, Coarser, Merging.InTenths, GroupSize;
    WholeGroups(comp, tc);
    var g := GroupSize(comp, tc);
    if comp > tc.baseCompression {
      BinSizeTimes(g, tc.tickSize, tc.baseCompression);
      assert tc.baseCompression * g == comp;
      Merging.MergeIsDirect(cs, BinSize(tc.tickSize, tc.baseCompression), g, base);
    } else {
      assert comp == tc.baseCompression;
    }
  }
}
