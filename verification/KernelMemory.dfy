/** The boot table and the frame allocator together: what the bootloader mapped for the
    kernel is what the allocator keeps back. */
module KernelMemory {
  import opened Words
  import PT = PageTables
  import FA = FrameAllocator

  /** No frame handed out to clients that free only what they hold lies under an address of
      the kernel window. */
  lemma KernelWindowNeverHandedOut(table: PT.Table, kernelSections: uint32, ops: seq<FA.Op>, i: nat, va: uint32)
    requires PT.IsBootTable(table, kernelSections) && kernelSections <= 512
    requires PT.KernelAddress(va, kernelSections)
    requires i < |ops| && ops[i].Alloc?
    requires FA.Disciplined({}, FA.Addresses(FA.InitialSlots(kernelSections, FA.FRAME_COUNT)), ops)
    ensures var a := FA.Run(FA.Addresses(FA.InitialSlots(kernelSections, FA.FRAME_COUNT)), ops)[i].returned;
            && PT.Translate(table, va).Some?
            && (a != 0 ==> PT.Translate(table, va).value < a)
  {
    PT.BootTranslation(table, kernelSections, va);
    FA.NeverHandsOutReserved(kernelSections, ops, i);
  }
}
