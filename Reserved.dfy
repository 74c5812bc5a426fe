/** The reserved-identifier registry: Lua's keywords and the Roblox global
    names that the engine never renames and never issues as a synthetic name.
    Both sets are case-sensitive and fixed. */
module Reserved {

  const LuaKeywords: set<string> := {
    "and", "break", "do", "else", "elseif", "end", "false", "for", "function", "if", "in",
    "local", "nil", "not", "or", "repeat", "return", "then", "true", "until", "while", "goto"
  }

  /** Listed as the source lists them, including the repeated entries and the
      entry "u Dim2", which holds a space and so can never equal an identifier. */
  const RobloxGlobals: set<string> := {
    "game", "workspace", "script", "players", "lighting", "replicatedfirst", "replicatedstorage",
    "serverstorage", "serverscriptservice", "startergui", "starterpack", "starterplayer",
    "teams", "soundservice", "chat", "logservice", "testservice", "httpService", "insertService",
    "marketplaceService", "teamsService", "teleportService", "userInputService", "contextActionService",
    "runService", "studioService", "terrain", "debris", "changeHistoryService", "selection",
    "collectionService", "physicsService", "pathfindingService", "controllerManagerService",
    "groupService", "badgeService", "pointsService", "leaderstats", "player", "character", "humanoid",
    "part", "meshpart", "unionoperation", "negateoperation", "trusspart", "wedgepart", "cornerwedgepart",
    "vehicleseat", "seat", "spawnlocation", "camera", "tool", "hopperbin", "accoutrement", "hat",
    "model", "folder", "boolvalue", "brickcolorvalue", "cframevalue", "color3value", "colorsequence",
    "colorsequencekeypoint", "intvalue", "numbervalue", "objectvalue", "rayvalue", "rect", "region3",
    "region3int16", "scriptsignal", "stringvalue", "vector3value", "u Dim2", "vector2", "vector3",
    "cframe", "ray", "udim", "udim2", "color3", "brickcolor", "numbersequence", "numbersequencekeypoint",
    "colorsequence", "colorsequencekeypoint", "instance", "bodymovers", "bodyvelocity", "bodyangularvelocity",
    "bodyposition", "bodygyro", "bodythrust", "bodyforce", "rocketpropulsion", "alignposition", "alignorientation"
  }

  /** The two reserved sets an engine object holds; `Has` is the "never
      rename" test used by every pass. */
  datatype Reserve = Reserve(keywords: set<string>, globals: set<string>) {
    predicate Has(name: string) {
      name in keywords || name in globals
    }
  }

  /** The sets every engine object is built with. */
  const Standard: Reserve := Reserve(LuaKeywords, RobloxGlobals)
}
