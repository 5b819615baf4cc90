/** The per-patch store of configuration models shared by both runtime contexts. */
module ConfigManagement {
  import opened Wrappers
  import opened Entities

  /** `ConfigManagementService`: patch identifier to configuration model. */
  class ConfigManagementService {
    var configurationMap: map<string, ConfigModel>

    constructor()
      ensures configurationMap == map[]
    {
      configurationMap := map[];
    }

    /** `setPolicyConfiguration`: a null model is ignored, otherwise it replaces any previous one. */
    method SetPolicyConfiguration(identifier: string, configuration: Option<ConfigModel>)
      modifies this
      ensures configuration.None? ==> configurationMap == old(configurationMap)
      ensures configuration.Some? ==> configurationMap == old(configurationMap)[identifier := configuration.value]
    {
      if configuration.Some? {
        configurationMap := configurationMap[identifier := configuration.value];
      }
    }

    /** `getPolicyConfiguration`: the model registered under the identifier, or null. */
    function GetPolicyConfiguration(identifier: string): (r: Option<ConfigModel>)
      reads this
      ensures r.Some? <==> identifier in configurationMap
      ensures r.Some? ==> r.value == configurationMap[identifier]
    {
      if identifier in configurationMap then Some(configurationMap[identifier]) else None
    }

    /** `deletePolicyConfiguration`: remove the entry and return what was there. */
    method DeletePolicyConfiguration(identifier: string) returns (previous: Option<ConfigModel>)
      modifies this
      ensures configurationMap == old(configurationMap) - {identifier}
      ensures previous == old(GetPolicyConfiguration(identifier))
    {
      previous := GetPolicyConfiguration(identifier);
      configurationMap := configurationMap - {identifier};
    }
  }
}
