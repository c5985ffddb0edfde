/** The plugin's settings and the choice of diagram processor. */
module Settings {

  datatype Settings = Settings(
    hasIcon: bool,
    needImageDesc: bool,
    plantUmlServerUrl: string,
    javaPath: string,
    dotPath: string,
    localJar: string)

  const DefaultServerUrl: string := "https://www.plantuml.com/plantuml"

  /** DEFAULT_SETTINGS. */
  const Defaults: Settings := Settings(false, true, DefaultServerUrl, "java", "dot", "")

  datatype Processor = Local | Server

  /** getPlantUmlProcessor: a configured local jar wins over the server. */
  function GetPlantUmlProcessor(settings: Settings): (p: Processor)
    ensures p == Local <==> |settings.localJar| > 0
  {
    if |settings.localJar| > 0 then Local else Server
  }

  /** Out of the box the plugin renders diagrams on the public server and
      keeps image descriptions. */
  lemma DefaultsUseServer()
    ensures GetPlantUmlProcessor(Defaults) == Server
    ensures Defaults.needImageDesc && |Defaults.plantUmlServerUrl| > 0
  {
  }
}
