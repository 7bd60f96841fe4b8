TestResult.DisplayName,TestResult.Outcome,TestResult.Duration,TestResult.ResourceCount,RandomSeed
FrontendTypes.TypeScope.RedirectMerged (correctness),Passed,00:00:01.4357618,2176914,1
FrontendTypes.TypeScope.RedirectMerged (well-formedness),Passed,00:00:00.3160218,177371,1
