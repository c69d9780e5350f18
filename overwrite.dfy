/** auto_tagging/overwrite.py: the `OverwriteHtml` class carries the same
    three injection passes as methods. It has no state of its own; each
    method gives the same result as its free-function twin in
    auto_tagging/utils.py for the same random draws. */
module Overwrite {
  import opened Utils
  import opened Injection

  class OverwriteHtml
  {
    constructor()
    {
    }

    method ModifyCoverpage(html: string, result: seq<Entry>, order: seq<Pair>, letters: nat -> nat, uuid: string,
                           draws: nat -> nat)
      returns (r: string)
      requires SetOrder(order, CoverPairs(result))
      ensures r == ModifyCoverpageSpec(html, order, letters, uuid, draws)
    {
      r := Injection.ModifyCoverpage(html, result, order, letters, uuid, draws);
    }

    method ModifyStatementTables(html: string, tableOutput: seq<Pair>, order: seq<Pair>, letters: nat -> nat, uuid: string,
                                 draws: nat -> TableDraw)
      returns (r: string)
      requires SetOrder(order, tableOutput)
      ensures r == ModifyStatementTablesSpec(html, order, letters, uuid, draws)
    {
      r := Injection.ModifyStatementTables(html, tableOutput, order, letters, uuid, draws);
    }

    method ModifyNotespages(html: string, pairs: seq<Pair>, exclude: seq<string>, letters: nat -> nat, uuid: string)
      returns (r: string)
      ensures r == ModifyNotespagesSpec(html, pairs, exclude, letters, uuid)
    {
      r := Injection.ModifyNotespages(html, pairs, exclude, letters, uuid);
    }
  }
}
