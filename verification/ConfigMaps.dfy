/** A process's local copy of a Kubernetes ConfigMap. */
module ConfigMaps {
  import opened Wrappers

  class ConfigMap {
    var data: map<string, string>
    const annotations: map<string, string>

    constructor (data: map<string, string>, annotations: map<string, string>)
      ensures this.data == data && this.annotations == annotations
    {
      this.data, this.annotations := data, annotations;
    }
  }

  function Lookup(m: map<string, string>, key: string): Option<string> {
    if key in m then Some(m[key]) else None
  }
}
