// Names, suffixes and indices the compiler writes into generated code
// (src/compile/compile_const.h), the 32-bit register width of
// src/compile/compile_p4.h, and the 2-bit isolation level shared by the passes.

module Consts {

  // Control blocks
  const OrigIngControlName := "originalIngress"
  const SetmblIngControlName := "__ciSetMbls"
  const SetargsIngControlName := "__ciSetArgs"
  const SetmblEgrControlName := "__ceSetMbls"
  const SetargsEgrControlName := "__ceSetArgs"
  const OrigEgrControlName := "originalEgress"
  const RegArgGateEgrControlName := "__ceRegArgGate"
  const RegArgGateIngControlName := "__ciRegArgGate"

  // Metadata headers
  const IngMetadataType := "__P4RIngMeta_t"
  const IngMetadataName := "__P4RIngMeta"
  const EgrMetadataType := "__P4REgrMeta_t"
  const EgrMetadataName := "__P4REgrMeta"

  // Register replicas for measurement isolation
  const RegReplicasSuffix0 := "__P4Rreplicas0"
  const RegReplicasSuffix1 := "__P4Rreplicas1"
  const RegReplicasTablePrefix := "__tr__"
  const RegReplicasBlackboxPrefix := "__br__"
  const RegReplicasActionPrefix := "__ar__"
  const IngRegMetadataType := "__P4RIngRegMeta_t"
  const IngRegMetadataName := "__P4RIngRegMeta"
  const EgrRegMetadataType := "__P4REgrRegMeta_t"
  const EgrRegMetadataName := "__P4REgrRegMeta"
  const RegMetadataOutputSuffix := "__output"
  const RegMetadataIndexSuffix := "__index"

  // Malleables
  const IndexSuffix := "__alt"
  const IngInitAction := "__aiSetVars"
  const EgrInitAction := "__aeSetVars"
  const IngArghdrType := "__packedIngArgs_t"
  const IngArghdrName := "__packedIngArgs"
  const EgrArghdrType := "__packedEgrArgs_t"
  const EgrArghdrName := "__packedEgrArgs"

  // Version bits
  const MvField := "__mv"
  const VvField := "__vv"

  // Control-plane C text
  const MantisNl := "_MANTIS_NL_"
  const MatchSuffixStr := "match_spec_t"
  const ActionSuffixStr := "action_spec_t"

  // Handler table layout
  const HandlerOffset := 2
  const IngInitEntryHandlerIndex := 0
  const EgrInitEntryHandlerIndex := 1
  const NumUserHdls := 5000

  /** Width in bits of one data-plane register cell (REGISTER_SIZE). */
  const RegisterSize := 32

  /**
   * The isolation level: bit 0 asks for measurement isolation (the `mv`
   * version bit), bit 1 for update isolation (the `vv` version bit).
   */
  type IsoLevel = l: int | 0 <= l < 4

  predicate Measurement(l: IsoLevel) { l % 2 == 1 }

  predicate Update(l: IsoLevel) { l / 2 == 1 }

  function Level(meas: bool, upd: bool): (l: IsoLevel)
    ensures Measurement(l) == meas && Update(l) == upd
  {
    (if meas then 1 else 0) + (if upd then 2 else 0)
  }

  /** A level is determined by its two bits. */
  lemma LevelOfBits(l: IsoLevel)
    ensures Level(Measurement(l), Update(l)) == l
  {
  }

  /** Number of set bits, i.e. of version bits the level asks for. */
  function BitCount(l: IsoLevel): (n: nat)
    ensures n == (if Measurement(l) then 1 else 0) + (if Update(l) then 1 else 0)
  {
    if l == 0 then 0 else if l == 3 then 2 else 1
  }
}
