/** The trie and the direct table give the same routes. */
module LpmAgreement {
  import opened Words
  import opened Lpm
  import LpmTrie
  import LpmTable

  /**
    Both programs started on the same rules of 2 bits or more and asked for the same address.  The
    trie comes up exactly when no prefix repeats, the table exactly when none is longer than 27
    bits.  When both are up they give the port of the one winning rule; where no rule covers the
    address the trie fails and the table says 0.
   */
  method LookUpBoth(rules: seq<Rule>, nbDevices: u32, ip: u32)
    returns (trieUp: bool, r: int, triePort: int, tableUp: bool, tablePort: int)
    requires Lengths(Kept(rules, nbDevices), 2, 32)
    ensures trieUp <==> NoRepeats(Kept(rules, nbDevices))
    ensures tableUp <==> forall i | 0 <= i < |Kept(rules, nbDevices)| :: Kept(rules, nbDevices)[i].len <= 27
    ensures trieUp && tableUp ==>
              if exists i :: 0 <= i < |Kept(rules, nbDevices)| && Covers(Kept(rules, nbDevices)[i], ip)
              then r == 0 && triePort == tablePort
                   && exists i :: Wins(Kept(rules, nbDevices), ip, 32, i) && triePort == Kept(rules, nbDevices)[i].port
              else r == -1 && tablePort == 0
  {
    hide Kept, NoRepeats, LpmTrie.Shadowed;
    trieUp, r, triePort := LpmTrie.LookUp(rules, nbDevices, ip);
    tableUp, tablePort := LpmTable.LookUp(rules, nbDevices, ip);
    if trieUp && tableUp {
      NoHostRules(Kept(rules, nbDevices), ip);
    }
  }

  /** Without rules for single addresses the trie is exact. */
  lemma NoHostRules(rules: seq<Rule>, ip: u32)
    requires Lengths(rules, 2, LpmTable.LONGEST_PREFIX)
    ensures LpmTrie.Shadowed(rules, ip)
    ensures forall i, j | Wins(rules, ip, 32, i) && Wins(rules, ip, 32, j) :: i == j
  {
  }
}
