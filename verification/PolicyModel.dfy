/** The policy record shared by the evaluator and the store. */
module PolicyModel {
  import opened Options
  import opened ScheduleModel

  /** `NoType` is the type left unset in the policy made up for a missing device. */
  datatype PolicyType = NoType | GlobalPolicy | TagPolicy | DevicePolicy

  datatype Policy = Policy(
    id: string, name: string, ptype: PolicyType, targetId: string, action: Action,
    scheduleIds: seq<string>, scheduleId: Option<string>, priority: int, enabled: bool, updatedAt: int)
  {
    /** The modern list if it is not empty, else the legacy single id. */
    function GetScheduleIDs(): seq<string> {
      if |scheduleIds| > 0 then scheduleIds
      else if scheduleId.Some? && scheduleId.value != "" then [scheduleId.value]
      else []
    }
  }

  type PolicyTable = map<string, Policy>
}
